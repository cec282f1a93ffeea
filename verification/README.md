# KarteOS in Dafny

A model of the data structures at the core of the KarteOS kernel and proofs about them, in Dafny 4.11.
`dafny verify dfyconfig.toml` checks everything.

Code that changes state in place is a class whose methods carry the loops of the source; each method is
proved against a specification that says what its state means, and the properties of whole runs are proved
about that meaning. Code that only computes is a function with lemmas.

## What is modelled

**Paging.** `Pmm` is the bitmap frame allocator. `Pte` is a page-table entry as a record of its fields, with
the bit-wise OR by which a large leaf is split. `PageTables` gives a table its meaning: for every page, the
frame and flags its four-level walk ends with. `Spaces` is an address space (memory, allocated frames, and a
directory from paths to table frames, which form a tree); `Vmm` holds `map`, `translate_user`,
`walk_mapping`, `unmap_user` and `mprotect_user` on it, `LargePages` `identity_map_2mb`, and `Teardown`
`free_user_page_table`. `Lives` says what any run of these calls makes of every page and frame of a user
address space, and `Conservation` proves that the code does that, from creation to teardown.
A tree has large leaves only at level 1 and 2MB-aligned, which is what `identity_map_2mb` makes.

**VMA table.** `Vma` is one address space's fixed array of regions, carved and split in place, and the
search for an mmap address.

**Block device.** `BlockCache` is the FIFO sector cache and the byte-addressed device over it. A sector
access may fail at any time; a failed write changes nothing.

**Ready queue.** `ReadyList` is the linear-scan list model and what holds of its runs, `ReadyQueue` the
32-level bitmap queue proved to be that list.

**OTA slots.** `Crc` is CRC-32 (section 8 of RFC 1952) on words as bit sequences, `CrcWords` ties it to
the loop of the source on 32-bit words, `Ota` is the slot format and the choice of a slot.

**RamFS.** `RamTree` is the inode table as a tree and what paths name in it, `RamFlat` a file system as a
flat map from paths to what they name, and `RamFs` the file system, proved to be that map.

**Rings, pipes, locks.** `TtyRing` is the lock-free terminal ring at the granularity of single loads and
stores. `Channels` is a table of pipes as the bytes each accepted and delivered, and `Pipes` the pipe rings and
the table of reference-counted pipe ends, proved to be that. `Nvme` is the queue pair with its phase tag,
`TokenPipes` the token ring, `Locks` the advisory byte-range locks. `Common` has shared types, and `Witnesses`
some of the inputs on which a property fails.

## What turned out false, and when it holds

Each of these is a property of the functions as they could be called, with arbitrary arguments; whether a
caller in the kernel passes such arguments is said where it matters. Each has a lemma or method that shows
it fail and one that says exactly when it holds.

- `mprotect_user` with flags that are not PRESENT unmaps the page (`Witnesses.MprotectUnmaps`). It keeps all
  translations if and only if it finds no 4K page or the new flags are present (`Vmm.MprotectKeeps`). The
  system call always passes PRESENT and USER.
- Teardown does not always give back exactly what a life took. `unmap_user` frees nothing, so a page unmapped
  by a caller who ignores the returned address, as `linux_munmap` does (kernel/src/syscall/mod.rs:2389-2397),
  or left without PRESENT or USER by `mprotect_user`, or mapped over, is leaked
  (`Witnesses.LeakerLeaks`). In the other direction `mprotect_user` works on every 4K page, also one split out
  of the kernel's large page by a mapping next to it: with USER that becomes a user page on a frame that was not
  allocated for it, and teardown frees the frame (`Witnesses.ReprotectorSteals`, `Witnesses.ForeignFrameReached`,
  `Witnesses.ForeignFrameFreed`). One `mprotect_user` keeps every frame accounted for if and only if the new
  flags make it a user page exactly when it was one (`Conservation.MprotectAlive`); a call of any kind keeps the
  balance if and only if it is tidy (`Lives.TidyIff`); and what is allocated after any life is what was before,
  plus what the life leaked, minus what it stole (`Conservation.LiveAndDie`).
- `identity_map_2mb` maps every address of its range to itself if and only if the range is no longer than
  2^48 bytes and ends within 52 bits (`LargePages.IdentityExact`); a longer one overwrites itself.
- `map` names the frame of the physical address if and only if the address has at most 52 bits
  (`Pte.EncodeExact`).
- `walk_mapping` agrees with `translate_user` except, exactly, for a 4K leaf naming frame 0
  (`Vmm.WalkMappingAgrees`, `Witnesses.FrameZeroIsCorrupt`).
- `vma_remove_range` on a full table loses the tail of a region that encloses the range
  (`Vma.FullTableLosesTail`). The range is carved out, and nothing else, if and only if no region encloses it
  or a slot is free. With start above end, which a wrapped sum in `linux_munmap` or a fixed mmap can produce,
  a region around both is torn into two that overlap (`Vma.BackwardsTears`): the table stays disjoint if and
  only if there is no such region or no free slot (`Vma.VmState.RemoveRange`).
- `reserve_mmap_addr` never returns for a request that meets, from the base up, a region reaching from below
  the limit into the last page of the address space (`Vma.SearchNeverReturns`). It returns for every request
  and every bump pointer if and only if there is no such region (`Vma.ReturnsIff`). With one, it can also
  hand out the same range twice (`Vma.TowerRepeats`). The mmap system call and the ELF loader register
  regions with page-aligned ends, which never reach there.
- The documentation promises a batch task promotion after 64 consecutive picks that left it waiting. A pick
  at the Normal level resets the clock, so one Normal task starves it for ever
  (`ReadyList.NormalTaskStarvesBatch`). The promise holds if and only if none of the 64 picks was at the
  Normal or the batch level (`ReadyList.PromotionExact`). The code is followed.
- Four consecutive changed bytes of an OTA slot can go unnoticed when they straddle the end of the CRC field
  (`Ota.StraddleUnnoticed`). `Ota.DamageAccepted` says exactly which damage is accepted; four bytes
  elsewhere outside the length field, and any single byte, are always noticed.
- `parse_slot` undoes `make_slot` for every total size under 2^32; from there on the length field is cut, and
  the CRC of a prefix decides or the parser panics (`Ota.RoundTrip`).
- Counting a pipe descriptor on an end that is not live breaks the table; on a live end it does not
  (`Pipes.PipeTable.IncRead`, `Witnesses.IncReadOnFreeSlot`).
- `Pipe::write` does not test whether the write end is closed. End of file of a pipe is final, whatever happens
  to the other pipes, if and only if no write without a descriptor finds a reader and room in it
  (`Channels.FinalIff`); such a write undoes it (`Pipes.EndOfFileUndone`).
- `consume` takes the tokens away if and only if so many are there (`TokenPipes.OverConsumed`). After too many,
  `view` shows tokens that are gone, or panics exactly when the claimed tokens would go round the ring more than
  once (`TokenPipes.TokenPipe.View`, `TokenPipes.ViewPanics`).

## Model

| member | source | states |
|---|---|---|
| Pmm.FrameAllocator.constructor | kernel/src/mm/pmm.rs:38-73 | the bitmap lies between the kernel and the first managed frame, the managed frames fill memory up to less than one page, and none is allocated |
| Pmm.FrameAllocator.Alloc | kernel/src/mm/pmm.rs:95-127 | hands out exactly one managed frame that was free, the first at or after the hint or else the first of all; fails only when every frame is allocated |
| Pmm.FrameAllocator.FindRun | kernel/src/mm/pmm.rs:129-171 | finds the leftmost run of free frames of the given length, and fails only when there is none |
| Pmm.FrameAllocator.AllocContiguous | kernel/src/mm/pmm.rs:129-171 | allocates exactly the leftmost free run, or changes nothing when there is none |
| Pmm.FrameAllocator.Dealloc | kernel/src/mm/pmm.rs:173-187 | frees exactly the given frame; addresses outside the managed range change nothing |
| Pte.SplitExact | kernel/src/mm/vmm.rs:203-241 | OR-ing the old entry into the 512 sub-entries names the right frames if and only if the leaf is 2MB-aligned; the flags are the old ones without PS |
| Pte.EncodeExact | kernel/src/mm/vmm.rs:267-277 | the leaf written for a physical address names its frame if and only if the address has at most 52 bits |
| Vmm.Memory.Zeroed | kernel/src/mm/vmm.rs:152-159 | a cleared table in a frame that was free; fails only when no frame is left |
| Vmm.Memory.CreateUserPageTable | kernel/src/mm/vmm.rs:408-410 | a new address space in which no page is mapped, costing one frame |
| Vmm.Memory.FillSplit | kernel/src/mm/vmm.rs:214-225 | fills a table so that each of the 512 pages keeps the frame and the flags (minus PS) the large leaf gave it |
| Vmm.Memory.Step | kernel/src/mm/vmm.rs:184-265 | one level of map's descent: creates or splits as needed, keeps the meaning of every page, uses a frame exactly when a table was missing |
| Vmm.Memory.Map | kernel/src/mm/vmm.rs:181-278 | exactly the addresses of va's page translate to the frame the leaf names for pa, plus offset, all others as before; the tables stay a tree of distinct allocated frames, new ones from free frames, and memory outside is untouched; it succeeds if and only if the missing tables fit into the free frames, for every pa |
| PageTables.HangTree | kernel/src/mm/vmm.rs:188-241 | hanging an equivalent table below an absent entry or a large leaf keeps the tree and the supervisor-only large leaves |
| PageTables.HangWalk | kernel/src/mm/vmm.rs:203-241 | ... and changes the frame or flags of no page: the split preserves meaning |
| PageTables.PatchWalk | kernel/src/mm/vmm.rs:421-426 | setting USER on a table pointer changes no walk |
| PageTables.LeafWalk | kernel/src/mm/vmm.rs:267-277 | writing a leaf changes the walk of its own page and of no other |
| PageTables.TranslateIsPage | kernel/src/mm/vmm.rs:457-484 | translate_user of an address is its page's frame plus the offset in the page, for 4K and large pages alike |
| Spaces.RemappedAddresses | kernel/src/mm/vmm.rs:457-484 | changing the meaning of one page changes translate_user for exactly that page's addresses |
| Spaces.SiblingStaysKernel | kernel/src/mm/vmm.rs:203-241 | mapping one page, also inside a supervisor large page, makes no other page reachable from user mode that was not |
| PageTables.ReachIff | kernel/src/mm/vmm.rs:421-426 | with USER on all table pointers Ring 3 reaches a page if and only if its leaf has USER |
| Vmm.Memory.TranslateUser | kernel/src/mm/vmm.rs:457-484 | the loop computes the recursive walk that defines what a table means |
| Vmm.Memory.WalkMapping | kernel/src/mm/vmm.rs:491-534 | the loop reports the entry the walk ends with, its level and size |
| Vmm.WalkMappingAgrees | kernel/src/mm/vmm.rs:491-534 | walk_mapping and translate_user agree, except exactly for 4K leaves naming frame 0, which are reported invalid; large pages are 2MB |
| Vmm.Memory.WalkToPt | kernel/src/mm/vmm.rs:431-450 | finds the level-0 table if and only if no gap or large page is in the way |
| Vmm.Memory.UnmapUser | kernel/src/mm/vmm.rs:545-573 | removes exactly one 4K page and returns the address it translated to; where there is none, a large page included, nothing changes |
| Vmm.Memory.MprotectUser | kernel/src/mm/vmm.rs:577-619 | gives one 4K page new flags and keeps its frame and every other page; translations survive if and only if no 4K page is found or the new flags are present |
| Vmm.MprotectKeeps | kernel/src/mm/vmm.rs:577-619 | the condition under which mprotect_user keeps every translation, both ways |
| Witnesses.MprotectUnmaps | kernel/src/mm/vmm.rs:577-619 | a page that translated translates no more after mprotect_user with no flags |
| Witnesses.FrameZeroIsCorrupt | kernel/src/mm/vmm.rs:491-534 | a page mapped to frame 0 translates and is reported invalid |
| LargePages.MapLarge | kernel/src/mm/vmm.rs:326-348 | one turn maps exactly the 512 pages of one 2MB page and keeps the tree |
| LargePages.IdentityMap2mb | kernel/src/mm/vmm.rs:321-350 | for every range, rounded to 2MB bounds on usize: every page means its place in the last large page of the range that shares its indices, every page that shares none what it did; large leaves stay supervisor-only when the flags are |
| LargePages.IdentityAddresses | kernel/src/mm/vmm.rs:321-350 | where every address translates afterwards, the aliases of the range above 48 bits included |
| LargePages.IdentityExact | kernel/src/mm/vmm.rs:321-350 | every address of the range translates to itself if and only if the range is no longer than 2^48 bytes and ends within 52 bits |
| Teardown.FreesExactlyHeld | kernel/src/mm/vmm.rs:621-653 | teardown's list of dealloc calls names every table and every user page of the space, by its place, exactly once, and nothing else: no supervisor page and no large page |
| Teardown.FreedOnceIff | kernel/src/mm/vmm.rs:621-653 | no frame is freed twice if and only if none is held at two places |
| Teardown.FreeLevel | kernel/src/mm/vmm.rs:624-648 | the recursion makes exactly the dealloc calls of the recursive listing, in its order |
| Teardown.FreeUserPageTable | kernel/src/mm/vmm.rs:621-653 | the allocated set loses exactly the frames held as tables or user pages, each place freed once, no frame twice if and only if none is held twice |
| Lives.BalancedIff | kernel/src/mm/vmm.rs:545-653 | all frames allocated for pages, and only those, sit in user pages at the end if and only if the life leaks and steals nothing |
| Lives.TidyIff | kernel/src/mm/vmm.rs:181-619 | for each call, of any kind on any page with any flags: whether it keeps that balance |
| Lives.TidyLife | kernel/src/mm/vmm.rs:181-619 | a life of such calls leaks and steals nothing |
| Lives.ExposedIff | kernel/src/mm/vmm.rs:577-619 | a user page is on a frame that was not allocated for it, at some moment of a life, if and only if some call maps one for the user or reprotects one with USER |
| Conservation.MprotectAlive | kernel/src/mm/vmm.rs:577-619 | mprotect_user on any 4K page, the kernel's included, keeps every frame held once and accounted for if and only if the new flags make it a user page exactly when it was one |
| Conservation.LiveThrough | kernel/src/mm/vmm.rs:408-619 | create, identity-map any supervisor ranges, then any calls of map, unmap_user and mprotect_user on any pages with any flags: every page means what the life says, and Ring 3 reaches exactly the pages it gives the user, at every moment as every beginning of a life is a life |
| Conservation.LiveAndDie | kernel/src/mm/vmm.rs:408-653 | conservation over every such life and its teardown: allocated is what was before and what the life leaked, without what it stole; exactly the user pages are freed, each once, with the frame the life put there, and no frame twice unless something was stolen; or the kernel ran out of frames |
| Conservation.LeakCount | kernel/src/mm/vmm.rs:408-653 | the leaked frames are as many as the calls whose frames leaked, and none was allocated before |
| Conservation.ConservedIff | kernel/src/mm/vmm.rs:408-653 | the allocated set is back where it was if and only if every leaked frame is stolen again and no frame of before is stolen; a balanced life always is |
| Witnesses.LeakerLeaks | kernel/src/mm/vmm.rs:545-573 | mapping a page and unmapping it without freeing leaks one frame |
| Witnesses.ReprotectorSteals | kernel/src/mm/vmm.rs:577-619 | reprotecting a kernel page next to a mapped one steals exactly its frame |
| Witnesses.ForeignFrameReached | kernel/src/mm/vmm.rs:577-619 | ... Ring 3 reaches that frame |
| Witnesses.ForeignFrameFreed | kernel/src/mm/vmm.rs:621-653 | ... and after teardown it is the one frame that is no longer allocated |
| Vma.VmState.Query | kernel/src/mm/vma.rs:243-253 | the protection of the first region covering the address |
| Vma.VmState.Check | kernel/src/mm/vma.rs:218-238 | the protection of the smallest accessible region covering the address; on disjoint tables it is vma_query restricted to non-zero protection |
| Vma.VmState.Insert | kernel/src/mm/vma.rs:304-325 | fills one free slot, or fails exactly when there is none |
| Vma.InsertKeeps | kernel/src/mm/vma.rs:304-325 | a non-fixed insertion keeps the table disjoint if and only if no region meets the new one |
| Vma.VmState.SplitOverlapping | kernel/src/mm/vma.rs:328-357 | leaves the range uncovered and every other address with its protection if and only if an enclosing region finds a slot for its tail; otherwise says exactly what is lost; keeps disjointness; with start above end a region around both is torn or loses its tail |
| Vma.VmState.RemoveRange | kernel/src/mm/vma.rs:379-383 | the range, and nothing else, is unmapped if and only if no region encloses it or a slot is free, and the table stays disjoint; with start above end, exactly when disjointness and when the protections survive |
| Vma.FullTableLosesTail | kernel/src/mm/vma.rs:328-357 | a full table on which a hole in one region loses its tail |
| Vma.BackwardsTears | kernel/src/mm/vma.rs:328-357 | a table that a range with start above end leaves overlapping |
| Vma.VmState.Add | kernel/src/mm/vma.rs:362-375 | a successful fixed add gives exactly the range the new protection and keeps disjointness; says what a failed one leaves, and a plain one, and a fixed one with start not below end |
| Vma.VmState.Search | kernel/src/mm/vma.rs:440-472 | the loop computes the turns of the search |
| Vma.VmState.Reserve | kernel/src/mm/vma.rs:432-474 | whenever it returns, the answer is that of its turns; without a region reaching into the last page that is first fit: the first page-aligned range of the rounded length at or after the bump pointer that meets no region and ends under the limit, or there is none |
| Vma.JumpSkipsTaken | kernel/src/mm/vma.rs:458-468 | jumping to the rounded end of the conflicts climbs and skips only addresses in conflict |
| Vma.SearchReturns | kernel/src/mm/vma.rs:432-474 | without a region reaching from below the limit into the last page every search returns, with the first fit |
| Vma.ReturnsIff | kernel/src/mm/vma.rs:432-474 | the search returns for every request and every bump pointer if and only if there is no such region |
| Vma.SearchNeverReturns | kernel/src/mm/vma.rs:432-474 | with such a region in the way of a request at the base, no number of turns ends the search |
| Vma.TowerRepeats | kernel/src/mm/vma.rs:432-474 | with such a region the same range is handed out twice |
| Vma.RoundedCovers | kernel/src/mm/vma.rs:433-434 | rounding the length up covers the request if and only if it does not wrap |
| Vma.ReserveAbove | kernel/src/mm/vma.rs:398-474 | after ensure_mmap_above every reservation lies at or above the address |
| Vma.RangesClimb | kernel/src/mm/vma.rs:432-474 | in every run in which no reservation meets a region reaching into the last page, the ranges handed out are of the rounded length, pairwise disjoint, and climb |
| Vma.Run | kernel/src/mm/vma.rs:362-474 | every run is a chain of states, from the first to the last, in which each call has the outcome of its operation and each reservation the answer and the bump pointer of its search; it stops early only at a reservation after a region reaching into the last page was added |
| BlockCache.BlockDevice.Fetch | kernel/src/driver/ext4_x86_64.rs:118-137 | a sector read through the cache is the disk's sector, hit or miss |
| BlockCache.SectorCache.Insert | kernel/src/driver/ext4_x86_64.rs:50-59 | the order is a duplicate-free listing of the keys, at most 2048; the new sector is in, and at most the oldest one is out |
| BlockCache.FlatUpdate | kernel/src/driver/ext4_x86_64.rs:147-197 | changing part of one sector is an update of the flat array at sector times 512 plus offset |
| BlockCache.BlockDevice.ReadOffset | kernel/src/driver/ext4_x86_64.rs:104-145 | a block at any offset is the slice of the flat array; zeros outside the valid range; right up to a failed sector and zero beyond |
| BlockCache.BlockDevice.WriteChunk | kernel/src/driver/ext4_x86_64.rs:156-194 | one turn of the write loop updates the flat array by its chunk and keeps every cached sector equal to the disk |
| BlockCache.BlockDevice.WriteOffset | kernel/src/driver/ext4_x86_64.rs:147-197 | the data, or after a failure a prefix of it, lands in the flat array at any offset; the cache stays coherent |
| BlockCache.Run | kernel/src/driver/ext4_x86_64.rs:33-197 | over every run of reads and writes the cache is coherent, and while no sector access fails contents and results are those of a plain byte array |
| ReadyList.StepSane | kernel/src/sched/ready_queue.rs:36-102 | every step keeps the starvation clock at 64 or below and all levels in range |
| ReadyList.BoundedWait | kernel/src/sched/ready_queue.rs:47-87 | a token at level 24 or above in priority with k before it is returned by the (k+1)-th pop, whatever is pushed meanwhile at its level or below |
| ReadyList.PromotedWaits | kernel/src/sched/ready_queue.rs:50-62 | a promoted batch token is returned at once or is one place further among those at level 24 or above |
| ReadyList.PromotedServed | kernel/src/sched/ready_queue.rs:47-87 | with k tokens at higher levels or ahead in level 24, a promoted batch token is returned by the (k+1)-th pop from its promotion on |
| ReadyList.PromotionExact | docs/agent/scheduler.md:15-18 | the promised promotion after 64 picks happens if and only if no pick was at the Normal or the batch level |
| ReadyList.NormalTaskStarvesBatch | kernel/src/sched/ready_queue.rs:68-77 | a single Normal task that keeps coming back starves a batch task for any number of picks |
| ReadyQueue.Queue.Push | kernel/src/sched/ready_queue.rs:36-42 | appends to the list model; a bit is set if and only if its level is non-empty |
| ReadyQueue.Queue.PickFrom | kernel/src/sched/ready_queue.rs:81-87 | takes the list's first waiter of the level and keeps the bitmap right |
| ReadyQueue.Queue.PopNext | kernel/src/sched/ready_queue.rs:47-79 | returns the linear scan's choice: promotion first, then minimum priority, earliest arrival |
| ReadyQueue.Queue.Remove | kernel/src/sched/ready_queue.rs:91-102 | removes the first occurrence at the lowest level that holds the token, and says whether there was one |
| ReadyQueue.Run | kernel/src/sched/ready_queue.rs:121-178 | every sequence of push, pop and remove is answered call by call as the list model answers it, empty pops and failed removals included |
| Crc.ComputeCrc32 | kernel/src/ota.rs:20-30 | the loop computes the recursive register function |
| CrcWords.BitIsMachineBit | kernel/src/ota.rs:24-27 | one turn on bit sequences is the source's shift, mask and XOR on 32-bit words |
| CrcWords.CrcIsMachineCrc | kernel/src/ota.rs:20-30 | for all data the CRC on bit sequences is the one the source computes on 32-bit words |
| Crc.RawLinear | kernel/src/ota.rs:20-30 | the register is linear: of the sum of two data it is the sum of the registers |
| Crc.BurstShows | kernel/src/ota.rs:20-30 | an error pattern confined to four consecutive bytes leaves a zero register if and only if it is zero |
| Ota.MakeSlot | kernel/src/ota.rs:79-90 | builds the image the lemmas speak of, field by field, with the CRC last |
| Ota.RoundTrip | kernel/src/ota.rs:34-90 | for every payload: under a total size of 2^32 parse_slot of make_slot succeeds with the same version and flag, beyond it exactly when the CRC of the cut length agrees; the payload follows the header |
| Ota.ParseFramed | kernel/src/ota.rs:34-58 | an image with magic and its own length parses if and only if it carries its own CRC |
| Ota.DamageAccepted | kernel/src/ota.rs:34-58 | damage that spares magic and length is accepted if and only if its own register equals its CRC field, whatever the image |
| Ota.ByteNoticed | kernel/src/ota.rs:34-58 | changing any single byte outside the length field makes parse_slot fail |
| Ota.BurstNoticed | kernel/src/ota.rs:34-58 | so does any change within four consecutive bytes outside the length field that do not straddle the end of the CRC field |
| Ota.StraddleUnnoticed | kernel/src/ota.rs:34-58 | four particular byte changes across the end of the CRC field are accepted in every image without payload |
| Ota.DamagedLoses | kernel/src/ota.rs:63-76 | select_slot picks the other slot, on either side, whenever that one is valid |
| Ota.HigherVersionWins | kernel/src/ota.rs:63-76 | of two intact slots the higher version wins, of equal ones A unless it alone is on trial |
| RamTree.Reachable | kernel/src/driver/ramfs.rs:357-370 | every inode is reached from the root by some path |
| RamTree.OnePath | kernel/src/driver/ramfs.rs:357-370 | ... and by one path only |
| RamTree.FindIff | kernel/src/driver/ramfs.rs:140-153 | find_child_by_name finds a child if and only if the directory lists it and it has that name |
| RamTree.GraftTree | kernel/src/driver/ramfs.rs:124-137 | adding a node under a directory keeps the tree: one parent with a smaller number, unique names, everything connected |
| RamTree.GraftLook | kernel/src/driver/ramfs.rs:249-269 | ... and changes what exactly one path names |
| RamTree.RefillLook | kernel/src/driver/ramfs.rs:230-247 | replacing a node's data changes what exactly its path names, and only if it is a file |
| RamTree.PruneTree | kernel/src/driver/ramfs.rs:156-160 | removing a childless node keeps the tree |
| RamTree.PruneLook | kernel/src/driver/ramfs.rs:293-305 | ... and makes exactly one path name nothing |
| RamFlat.ComponentsOfRender | kernel/src/driver/ramfs.rs:328-333 | every path of non-empty names without slashes can be written as text and is split back into itself |
| RamFlat.MeansLook | kernel/src/driver/ramfs.rs:357-370 | what a path names in the inode table is what the flat map says, for every path |
| RamFlat.MeansGraft | kernel/src/driver/ramfs.rs:124-137 | adding a node is one new path in the flat map, under a new number |
| RamFlat.MeansPrune | kernel/src/driver/ramfs.rs:156-160 | removing a childless node is one path less |
| RamFlat.MeansBusy | kernel/src/driver/ramfs.rs:293-305 | an inode lists children if and only if some path goes on below its own |
| RamFlat.PutPathExact | kernel/src/driver/ramfs.rs:374-395 | storing at a path fails, with nothing changed, if and only if the path is empty or a proper prefix is a file; otherwise it reads the data (unless it is a directory), its proper prefixes are directories, and every other path names what it did |
| RamFs.RamFileSystem.constructor | kernel/src/driver/ramfs.rs:55-71 | a new file system is the map in which only the root path names anything |
| RamFs.RamFileSystem.FindChild | kernel/src/driver/ramfs.rs:140-153 | the loop is the scan of the directory's children |
| RamFs.RamFileSystem.AddNode | kernel/src/driver/ramfs.rs:383-394 | a fresh number, and exactly the path of the new node changes; numbers are never reused |
| RamFs.RamFileSystem.CreateNode | kernel/src/driver/ramfs.rs:249-291 | create_file and create_dir: answer and effect of the flat map, the error cases exactly and nothing changed on error |
| RamFs.RamFileSystem.Unlink | kernel/src/driver/ramfs.rs:293-305 | one path less, refused if and only if there is none or something is below it |
| RamFs.RamFileSystem.WriteFile | kernel/src/driver/ramfs.rs:230-247 | the one path of the inode reads as its bytes extended with zeros and overwritten from the offset |
| RamFs.RamFileSystem.SetFileSize | kernel/src/driver/ramfs.rs:307-319 | the one path of the inode reads as its bytes cut or extended with zeros |
| RamFs.RamFileSystem.WriteStatic | kernel/src/driver/ramfs.rs:75-96 | exactly one path in the root changes, unless it is a directory |
| RamFs.RamFileSystem.WalkCreateDirs | kernel/src/driver/ramfs.rs:328-354 | fails, with nothing changed, only if the path is empty or a proper prefix is a file; otherwise the missing proper prefixes are made directories, in order |
| RamFs.RamFileSystem.CreatePath | kernel/src/driver/ramfs.rs:374-395 | stores at the path as the flat map does, all or nothing |
| RamFs.RamFileSystem.WalkPath | kernel/src/driver/ramfs.rs:357-370 | the loop over the components finds what the flat map has for the whole path |
| RamFs.RamFileSystem.ReadPath | kernel/src/driver/ramfs.rs:398-405 | the bytes of the file the path names, if it names a file |
| RamFs.Run | kernel/src/driver/ramfs.rs:75-405 | every run of calls is answered call by call as the flat map answers it, and ends where it ends; the table stays a tree and no inode number is used again |
| TtyRing.NextGood | kernel/src/driver/tty.rs:56-87 | every single load or store of either side keeps the invariant that ties positions and slots to the bytes pushed and popped |
| TtyRing.PrefixOrder | kernel/src/driver/tty.rs:56-81 | under every interleaving the bytes popped are a prefix of the bytes pushed, and at most 4095 are unread |
| TtyRing.NeverOverwritesUnread | kernel/src/driver/tty.rs:56-68 | under every interleaving a slot is written only when no unread byte is in it and it is not being read |
| TtyRing.RefusesIffFull | kernel/src/driver/tty.rs:57-62 | push refuses if and only if 4095 bytes are unread at its load of tail |
| TtyRing.NothingIffEmpty | kernel/src/driver/tty.rs:71-76 | pop returns nothing if and only if no byte is unread at its load of head |
| TtyRing.LenCounts | kernel/src/driver/tty.rs:83-87 | len, from the consumer, is the number unread at its load of head, so at least that many are there |
| Channels.FinalIff | kernel/src/driver/pipe.rs:56-267 | once no write descriptor is left, a pipe accepts nothing more until it is freed if and only if no write without one finds data, a reader and room; the other pipes do not matter |
| Channels.Conveys | kernel/src/driver/pipe.rs:56-121 | over every run, as long as a pipe is there, the bytes its readers were given are the first of those its writers were told were taken, in order |
| Pipes.Pipe.Read | kernel/src/driver/pipe.rs:56-85 | the answer of the channel: the oldest bytes, as many as asked for; end of file only when the write end is closed and everything was read |
| Pipes.Pipe.Write | kernel/src/driver/pipe.rs:90-121 | the answer of the channel: the longest prefix that fits is accepted; EPIPE, would-block and zero otherwise |
| Pipes.PipeTable.Alloc | kernel/src/driver/pipe.rs:184-194 | the first free slot gets an empty pipe with one descriptor per end; fails only when all are taken |
| Pipes.PipeTable.IncRead | kernel/src/driver/pipe.rs:216-218 | counting a read descriptor keeps the table valid if and only if the end is live |
| Pipes.PipeTable.IncWrite | kernel/src/driver/pipe.rs:221-223 | counting a write descriptor keeps the table valid if and only if the end is live |
| Witnesses.IncReadOnFreeSlot | kernel/src/driver/pipe.rs:216-218 | counting a read descriptor of a free slot leaves an invalid table |
| Witnesses.IncWriteOnFreeSlot | kernel/src/driver/pipe.rs:221-223 | counting a write descriptor of a free slot leaves an invalid table |
| Pipes.PipeTable.CloseRead | kernel/src/driver/pipe.rs:227-267 | one descriptor less; the end is closed if and only if its count is zero, the slot free if and only if both are; no byte is lost or invented, and no other pipe changes |
| Pipes.PipeTable.CloseWrite | kernel/src/driver/pipe.rs:243-267 | the same for the write end |
| Pipes.PipeTable.Read | kernel/src/driver/pipe.rs:197-203 | a read through the table; end of file only with no writer left and everything read; no other pipe changes |
| Pipes.PipeTable.Write | kernel/src/driver/pipe.rs:197-203 | a write through the table; EPIPE if and only if no reader is left; no other pipe changes |
| Pipes.Run | kernel/src/driver/pipe.rs:56-267 | every run that duplicates only live descriptors is answered call by call as the channels answer it, and ends with their counts and bytes |
| Pipes.EndOfFileUndone | kernel/src/driver/pipe.rs:90-121 | such a write is accepted, and a reader that saw the end of file reads it |
| Nvme.NvmeQueue.Submit | kernel/src/driver/nvme.rs:209-216 | the command goes to the next slot, whose number is its identifier; the last 64 commands are in the queue |
| Nvme.NvmeQueue.Poll | kernel/src/driver/nvme.rs:221-234 | returns the next completion if and only if it has been posted; a stale entry of an earlier lap is never accepted |
| Nvme.WaitForCompletion | kernel/src/driver/nvme.rs:220-237 | the waiting loop returns the next completion whatever the device posts meanwhile, and spins only while there is none |
| Nvme.InOrder | kernel/src/driver/nvme.rs:156-237 | over every run the driver receives exactly the completions posted, in order, each once |
| Nvme.Run | kernel/src/driver/nvme.rs:156-237 | over any number of wraps what is submitted, posted, taken and received is what the calls say, one by one |
| Locks.ReportExact | kernel/src/driver/fs.rs:476-494 | the range F_GETLK reports is exactly the lock's, also where 64-bit arithmetic wraps |
| Locks.LockTable.FindConflict | kernel/src/driver/fs.rs:523-549 | the first lock that clashes with the request, or there is none |
| Locks.LockTable.ReleaseFdLocks | kernel/src/driver/fs.rs:578-581 | drops exactly the locks of the descriptor |
| Locks.LockTable.TryLock | kernel/src/driver/fs.rs:566-575 | adds the lock if and only if nothing clashes, and keeps the table exclusive |
| Locks.LockTable.GetLock | kernel/src/driver/fs.rs:593-616 | reports a conflict if and only if there is one, and then exactly the first clashing lock |
| Locks.LockTable.FcntlLockOp | kernel/src/driver/fs.rs:587-657 | each command's effect and answer for every type and range; F_SETLKW tries again on the table that whatever happens while it yields leaves |
| Locks.LockTable.Run | kernel/src/driver/fs.rs:552-657 | over every run of lock, unlock, probe and close calls the table and every answer are those of the calls one by one, and the table stays exclusive |
| Locks.NoByteShared | kernel/src/driver/fs.rs:517-549 | in such a table no byte of a file is write-locked by one descriptor and locked by another |
| Locks.ProbeThenLock | kernel/src/driver/fs.rs:593-650 | F_GETLK reports a conflict if and only if F_SETLK with the same arguments is refused |
| TokenPipes.TokenPipe.Push | kernel/src/tokpipe.rs:50-61 | in every state takes the token, cut to 64 bytes; drops one and counts it if and only if the ring claims 256 |
| TokenPipes.TokenPipe.View | kernel/src/tokpipe.rs:65-78 | in every state the two windows together show, from the reader's position on, the latest token pushed to each slot; it panics if and only if they would go round the ring more than once |
| TokenPipes.SightExact | kernel/src/tokpipe.rs:65-78 | as long as no more was consumed than there was, that is the oldest tokens in order |
| TokenPipes.ViewPanics | kernel/src/tokpipe.rs:65-83 | one token pushed and two consumed: 511 claimed, and view panics |
| TokenPipes.TokenPipe.Consume | kernel/src/tokpipe.rs:81-83 | in every state moves the reader and nothing else |
| TokenPipes.OverConsumed | kernel/src/tokpipe.rs:40-83 | the length goes down by what was consumed if and only if so much was there, and then the ring is still in step |
| TokenPipes.History | kernel/src/tokpipe.rs:50-61 | over every run the tokens pushed are those of its pushes, in order |
| TokenPipes.EveryToken | kernel/src/tokpipe.rs:50-83 | over every run that consumes no more than the ring claims each token is consumed, dropped or still there, and nothing else is |
| TokenPipes.Run | kernel/src/tokpipe.rs:50-83 | every run, with any arguments, ends where the stream of its calls ends, and its views show what the stream shows |

## Left out

- 1GB leaves in `map`: nothing creates them, and the tree excludes them.
- Bits 52-62 of an entry: no code reads them.
- The `|` that joins frame and offset in `translate_user` is modelled as `+`, which it equals because leaves are aligned.
- TLB flushes, barriers, memory ordering weaker than sequential consistency in the terminal ring, wake-ups and blocking: they are effects on hardware or on the scheduler.
- The RISC-V and AArch64 variants of the page-table code.
- In a life the ranges identity-mapped at the start are supervisor-only, as the kernel's are, and a caller of `unmap_user` gives back a frame only if it was allocated for that page.
- The registry that maps page-table roots to VMA tables, `vma_update_prot`, `vma_overlaps` and the ELF helpers: they would only add easy members, or promise nothing exact.
- Vma.VmState.Reserve: requires that the search returns, because a method must; `Vma.ReturnsIff` says when it does.
- Directory listing, metadata, `read_file`, `write_path` and the global instance of RamFS: they only read or forward.
- Whether a RamFS file's bytes are static or owned: both are the same bytes here; inode numbers and sizes do not wrap at 2^64.
- `l_pid` and `l_whence` of a lock request: the code ignores them.
- The stale bytes of a token slot beyond its length are kept but not spoken of.
- The line editor, the shell, network protocols, the arbiter, device bring-up, ext4 and FAT libraries.
