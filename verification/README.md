# ALGAE kernel: memory, scheduling and storage, modelled and proved in Dafny

The project models the parts of the ALGAE kernel in which a small slip would do the most damage, and
proves that they keep what the rest of the kernel relies on.

- **The TLSF heap** (`ntos/mm/tlsf.c`). Memory is a row of 8-byte words, so that the link to the previous
  block, which lives in that block's last payload word, is visible. Four views of the same words have to
  agree: the blocks that tile each pool, the two flag bits in every size word, the doubly linked free
  lists, and the two bitmap levels. `TlsfMapping` and `TlsfRequest` hold the arithmetic of size classes and
  requests in 64-bit words; `TlsfHeap`, `TlsfOps`, `TlsfPools`, `TlsfLaws` and `TlsfRuns` the heap as blocks
  and lists; `TlsfRep` and `TlsfSteps` say how words represent it; `TlsfChecks` says what the
  consistency checks look for; `TlsfAllocator` is the allocator itself, a class over word arrays whose
  every method is proved to compute the function of the abstract heap it stands for.
- **Page tables over the frame allocator** (`phys.c`, `mmu.c`, `page.c`). `Frames` is the first-fit bitmap
  allocator; `PageTables` defines the four-level walk of the Intel SDM (Vol. 3A, sections 4.5 and 4.6) and
  gives every table frame a role (its level, the indices that lead to it, the space it belongs to), from
  which it follows which translations a single write can change; `Mmu` holds the mapping operations, and
  `AddressSpaces` runs of them over any number of spaces.
- **The scheduler** (`queue.h`, `sched.c`, `spinlock.c`, `parb.c`, `process.c`). `TailQueue` is the tail
  queue with its pointers to pointers; `SchedProtocol` interleaves the single statements of enqueue and
  dequeue on any number of cores; `Scheduler` is the timer switch and the round-robin arbiter.
- **Storage and text**: the OMAR archive with one writer and two readers (`Omar`), the object namespace
  (`ObStore`), and printing and reading numbers (`Numbers`). `Digits` reads words as bits and bytes, and
  `Sequences` says what a list without duplicates is.

Code that changes state in place is a class or a method with loops; each such method is proved against
a function of the old state, and lemmas about those functions carry the main results. A pointer into the
heap is the number of the word it points at, a process or an object is a number, and 0 is null. In
`lemma` contracts `Lives(h)` maps every block a client holds to the number of words the client owns,
`Kept` says that the payloads of such blocks, and everything outside the pools except two scratch words of
the null block, hold the same words as before, and `Elsewhere` says that every space translates every
page as before except those listed, and that no root table changes but for gaps filled in the one named.

## Model

| member | source | states |
|---|---|---|
| TlsfMapping.FlsHalves | ntos/mm/tlsf.c:179-195 | the 64-bit highest-bit search that looks at the high half first finds the highest set bit of every 64-bit size |
| TlsfMapping.Mapping | ntos/mm/tlsf.c:515-532 | the two-level index of every size equals a closed form: 32 equal slices per power of two from 256 up, counted in one row |
| TlsfMapping.MappingInRange | ntos/mm/tlsf.c:515-532 | the index lies inside the table of lists exactly for sizes below 2^32; the second level always does |
| TlsfMapping.MaximumBlockFallsOffTheTable | ntos/mm/tlsf.c:991-1003 | a block of exactly the advertised maximum size is filed one row past the end of the table |
| TlsfMapping.ClassMonotone | ntos/mm/tlsf.c:515-532 | a bigger block is never filed in a lower list |
| TlsfMapping.SearchedClassFits | ntos/mm/tlsf.c:535-543 | every block filed at or above the searched class is at least as big as the request |
| TlsfMapping.SkippedClassBound | ntos/mm/tlsf.c:535-543 | a block filed below the searched class is smaller than the request rounded up |
| TlsfMapping.RoundUpWaste | ntos/mm/tlsf.c:535-543 | rounding a request up costs 2^(fls-5) - 1 bytes, less than one part in 32 |
| TlsfRequest.AdjustRange | ntos/mm/tlsf.c:494-508 | a rounded request is a multiple of 8 below 2^32, and zero or at least the minimum block |
| TlsfRequest.AdjustCovers | ntos/mm/tlsf.c:494-508 | rounding covers or refuses a request exactly when adding 7 does not wrap; it refuses exactly the sizes from 2^32 - 7 to 2^64 - 8 |
| TlsfRequest.AlignUpLaw | ntos/mm/tlsf.c:470-492 | without wrap-around, aligning gives the least multiple that is not smaller |
| TlsfRequest.LeadingGapLaw | ntos/mm/tlsf.c:1153-1176 | for every power of two the gap in front of an aligned block is zero or at least 32, leads to an aligned address, exceeds the alignment by at most 24, and is the smallest that does so |
| TlsfRequest.PaddedRequest | ntos/mm/tlsf.c:1137-1145 | the padded size is refused or leaves room for request, alignment and header |
| TlsfRequest.PaddedRequestWraps | ntos/mm/tlsf.c:1137-1145 | alignment 2^63 makes the padded size wrap to the minimum block |
| TlsfRequest.MiddleGap | ntos/mm/tlsf.c:1153-1176 | at that alignment the gap leads to address 2^63 or round the end of the address space |
| TlsfRequest.GapFits | ntos/mm/tlsf.c:739-753 | the block found can always be split behind a non-zero gap, and what remains still covers the request |
| TlsfOps.MergePrevKeeps | ntos/mm/tlsf.c:681-693 | merging backwards keeps the whole invariant with one block in hand, leaves a used neighbour before it, and no client sees it |
| TlsfOps.MergeNextKeeps | ntos/mm/tlsf.c:696-709 | merging forwards likewise leaves a used neighbour behind the block |
| TlsfOps.FreeLaw | ntos/mm/tlsf.c:1182-1195 | freeing keeps the invariant and takes exactly the freed block from the live ones |
| TlsfOps.CarveKeeps | ntos/mm/tlsf.c:712-753 | trimming a block in hand to a request behind a gap keeps the invariant; the result is at least the request and less than 32 bytes more |
| TlsfOps.LocateFits | ntos/mm/tlsf.c:755-783 | the block a request is served from is a free block big enough for it |
| TlsfOps.MallocLaw | ntos/mm/tlsf.c:1117-1123 | null leaves the heap as it was; otherwise one new live block of at least the rounded request and less than 32 bytes more appears and no other changes |
| TlsfOps.MemalignKeeps | ntos/mm/tlsf.c:1125-1180 | for every power of two in a word the invariant holds afterwards, null changes nothing, and otherwise exactly one new live block appears |
| TlsfOps.MemalignLaw | ntos/mm/tlsf.c:1125-1180 | up to 2^62 that block is big enough and its payload address a multiple of the alignment |
| TlsfOps.MemalignServes | ntos/mm/tlsf.c:739-753 | the result is null or aligned with room for the request exactly up to alignment 2^62, or when nothing is found, or when the block found happens to lie across address 2^63 |
| TlsfOps.PlainAlignment | ntos/mm/tlsf.c:1140-1144 | up to alignment 8 an aligned allocation is a plain one |
| TlsfOps.ReallocLaw | ntos/mm/tlsf.c:1210-1266 | null leaves everything as it was; otherwise the returned block is live and big enough, the old one is live only if it is the one returned, and every other block is as before |
| TlsfPools.AddPoolKeeps | ntos/mm/tlsf.c:1011-1028 | a pool clear of all others joins the heap as one free block and a sentinel, the invariant holds and clients see nothing |
| TlsfPools.RemovePoolKeeps | ntos/mm/tlsf.c:1031-1044 | taking out a pool that is one free block keeps the invariant |
| TlsfPools.PoolIsTiled | ntos/mm/tlsf.c:906-921 | the blocks walked from a pool's start are exactly the blocks in its range, and headers and payloads add up to its size |
| TlsfPools.EmptyPool | ntos/mm/tlsf.c:1038-1040 | a pool in which nothing is live is one free block that reaches the sentinel |
| TlsfPools.PayloadsApart | ntos/mm/tlsf.c:297-315 | live payloads are pairwise disjoint and lie inside their pools |
| TlsfLaws.AllocateFree | ntos/mm/tlsf.c:681-753 | for a block taken from the head of its list, any gap and any size, freeing what was cut out restores the heap exactly |
| TlsfLaws.MallocFree | ntos/mm/tlsf.c:1117-1195 | free straight after a successful malloc restores tiles, flags and every list in order; with `TlsfRep.SameRep`, every header word, list head and bitmap word |
| TlsfLaws.MemalignFree | ntos/mm/tlsf.c:1125-1195 | free straight after a successful memalign likewise, gap and all, for every power of two in a word |
| TlsfRuns.LocateIsBest | ntos/mm/tlsf.c:545-576 | the located block heads the first non-empty list from the searched class on, all lists between are empty, and no block that fits for certain is in a lower class; null means all lists from there on are empty and every free block is smaller than the rounded request |
| TlsfRuns.MallocServes | ntos/mm/tlsf.c:1117-1123 | a malloc result holds the request exactly when the size is at most 2^64 - 8 or no block serves the minimum request |
| TlsfRuns.MallocSucceeds | ntos/mm/tlsf.c:755-783 | malloc returns null only if no free block is 33/32 of the request with 7 bytes for rounding, or of the minimum block |
| TlsfRuns.MemalignSucceeds | ntos/mm/tlsf.c:1125-1180 | memalign returns null only if no free block is 33/32 of the rounded request with twice the alignment and 32 bytes added |
| TlsfRuns.ReallocServes | ntos/mm/tlsf.c:1210-1266 | a realloc result holds the request exactly for sizes up to 2^32 - 8 |
| TlsfRuns.ReallocSucceeds | ntos/mm/tlsf.c:1210-1266 | realloc leaves a block where it is exactly when the block, or it and a free one behind it, has room; it returns null only if not and no free block is 33/32 of the rounded request |
| TlsfRuns.OversizeReallocBreaks | ntos/mm/tlsf.c:725-737 | in the abstract heap, an oversize realloc of a live block leaves a valid heap exactly when the block has fewer than four payload words |
| TlsfRuns.StepKeeps | ntos/mm/tlsf.c:982-1266 | every call, made as the allocator asks of its callers, keeps the invariant and changes the live blocks as it promises |
| TlsfRuns.RunLaw | ntos/mm/tlsf.c:982-1266 | in every state of every run from an empty heap the invariant holds, each call does to clients' blocks what it promises and nothing else, pools are tiled to the last word, and a pool without live blocks is one free block |
| TlsfRep.TagFields | ntos/mm/tlsf.c:367-411 | size and both flags are read back from a packed size word, and a new size keeps the flags |
| TlsfRep.TagUpdates | ntos/mm/tlsf.c:388-411 | setting or clearing one flag bit changes that flag and nothing else of the word |
| TlsfRep.SameRep | ntos/mm/tlsf.c:578-625 | two states that represent the same heap agree in every list head, bitmap word, size word and link |
| TlsfRep.ChainRemove | ntos/mm/tlsf.c:578-586 | the two link writes of a removal leave the doubly linked list without that element |
| TlsfRep.ChainInsert | ntos/mm/tlsf.c:607-614 | the three link writes of an insertion put the block in front of the doubly linked list |
| TlsfRep.BitmapsInsert | ntos/mm/tlsf.c:621-624 | setting both bits makes the bitmaps describe the lists with one list no longer empty |
| TlsfRep.BitmapsRemove | ntos/mm/tlsf.c:593-603 | clearing the bits, the upper one only for an emptied row, makes the bitmaps describe the lists with one list empty |
| TlsfSteps.SearchBitmaps | ntos/mm/tlsf.c:545-576 | the masked two-level search over the bitmaps finds the first non-empty list from the given one on, or that there is none |
| TlsfSteps.UnlistRep | ntos/mm/tlsf.c:578-604 | removing a block from its list in memory represents the heap without it in that list and touches no client word |
| TlsfSteps.InsertRep | ntos/mm/tlsf.c:607-625 | inserting a block in memory likewise |
| TlsfSteps.CutRep | ntos/mm/tlsf.c:649-668 | the two size words of a split represent both parts, the second with whatever stale flags its word held |
| TlsfSteps.JoinRep | ntos/mm/tlsf.c:671-678 | the size word of an absorbed block represents the joint block before its link is written |
| TlsfSteps.PayloadWrite | ntos/mm/tlsf.c:297-315 | a client that writes its own payload, last word included, disturbs neither the allocator nor any other client |
| TlsfAllocator.Tlsf.constructor | ntos/mm/tlsf.c:799-815 | the cleared lists and bitmaps represent the heap without pools |
| TlsfAllocator.PoolSize | ntos/mm/tlsf.c:982-1009 | memory is accepted for a pool exactly when it is aligned to 8 and has 40 bytes or more and less than 2^32 + 24; the pool takes the whole words of it but two |
| TlsfAllocator.Tlsf.RemoveFreeBlock | ntos/mm/tlsf.c:578-604 | the new words represent the heap with the block out of its list |
| TlsfAllocator.Tlsf.InsertFreeBlock | ntos/mm/tlsf.c:607-625 | the new words represent the heap with the block first in its list |
| TlsfAllocator.Tlsf.MarkAsFree | ntos/mm/tlsf.c:455-461 | both flags and the link behind the block record it as free, and only three words change |
| TlsfAllocator.Tlsf.MarkAsUsed | ntos/mm/tlsf.c:463-468 | both flags record it as used, and only two words change |
| TlsfAllocator.Tlsf.BlockSplit | ntos/mm/tlsf.c:649-668 | the block is cut and its rest marked free, up to one stale flag that callers correct |
| TlsfAllocator.Tlsf.BlockAbsorb | ntos/mm/tlsf.c:671-678 | the block takes over its successor's words, and only two words change |
| TlsfAllocator.Tlsf.MergePrevious | ntos/mm/tlsf.c:681-693 | computes the abstract backward merge and keeps all clients' words |
| TlsfAllocator.Tlsf.MergeFollowing | ntos/mm/tlsf.c:696-709 | computes the abstract forward merge, for the block in hand or a live block about to grow |
| TlsfAllocator.Tlsf.BlockTrimFree | ntos/mm/tlsf.c:712-722 | computes the abstract trim of a free block |
| TlsfAllocator.Tlsf.BlockTrimUsed | ntos/mm/tlsf.c:725-737 | computes the abstract trim of a live block, whose client keeps its first words |
| TlsfAllocator.Tlsf.BlockTrimFreeLeading | ntos/mm/tlsf.c:739-753 | gives back the gap in front as a listed block and returns the rest, or the block itself if it cannot be split |
| TlsfAllocator.Tlsf.SearchSuitableBlock | ntos/mm/tlsf.c:545-576 | returns the head of the first non-empty list from the given index on, and that index, or null if there is none |
| TlsfAllocator.Tlsf.BlockLocateFree | ntos/mm/tlsf.c:755-783 | takes the abstractly located block in hand, also when the searched index is past the table |
| TlsfAllocator.Tlsf.TlsfMalloc | ntos/mm/tlsf.c:1117-1123 | the words go on representing the heap, the result is that of the abstract malloc, and no live payload word and no word outside the pools changes |
| TlsfAllocator.Tlsf.TlsfMemalign | ntos/mm/tlsf.c:1125-1180 | likewise for every power of two in a word, with the payload at a multiple of the alignment up to 2^62 |
| TlsfAllocator.Tlsf.AllocateAndFree | ntos/mm/tlsf.c:1117-1195 | an allocation freed straight away leaves list heads, bitmaps, size words and links word for word as they were, and every payload too |
| TlsfAllocator.Tlsf.TlsfFree | ntos/mm/tlsf.c:1182-1195 | the result is that of the abstract free, exactly the freed block is no longer live, and all other payloads are kept; null does nothing |
| TlsfAllocator.Tlsf.CopyBytes | ntos/rtl/string.c:15-22 | the byte loop makes the destination's first bytes those of the source and touches nobody else's words |
| TlsfAllocator.Tlsf.TlsfRealloc | ntos/mm/tlsf.c:1210-1266 | the result is that of the abstract resize; the first min(old, new) bytes are kept whether the block moves, grows or shrinks, or the rounded request if its rounding wrapped; a refusal keeps every payload word, the old block's too; other clients' words never change |
| TlsfAllocator.Tlsf.TlsfAddPool | ntos/mm/tlsf.c:982-1029 | represents the heap with the new pool if the memory is aligned to 8 and has 40 to 2^32 + 23 bytes, the sentinel's size word being the last whole word handed in; otherwise 0 and nothing changes |
| TlsfAllocator.Tlsf.TlsfRemovePool | ntos/mm/tlsf.c:1031-1044 | for a pool in which nothing is live all three assertions hold and the pool leaves the heap |
| TlsfAllocator.Tlsf.TlsfCheck | ntos/mm/tlsf.c:846-896 | on any words whose lists end, the result is 0 exactly when all of these hold: a bit is set if and only if its list has blocks, and only below a set first-level bit; each listed block is marked free with both neighbours used, the next one marked accordingly, of minimum size or more, in the list of its size |
| TlsfAllocator.Tlsf.CheckBlock | ntos/mm/tlsf.c:881-889 | the status stays as it was exactly when all six checks of a listed block pass, and sinks otherwise |
| TlsfAllocator.Tlsf.CheckPasses | ntos/mm/tlsf.c:846-896 | in every represented state every list ends and there is nothing for the check to find |
| TlsfAllocator.Tlsf.TlsfCheckPool | ntos/mm/tlsf.c:829-941 | on any words in which sizes lead to a block of size 0, the result is 0 exactly when each block before that one says truly whether the block before it is free |
| TlsfAllocator.Tlsf.CheckPoolPasses | ntos/mm/tlsf.c:829-941 | in every represented state the walk over a pool ends at its sentinel and there is nothing to find |
| Frames.AllocAccounted | ntos/mm/phys.c:105-138 | a run of free frames handed out is disjoint from all live ranges and the bits are again exactly the reserved and live frames |
| Frames.FreeAccounted | ntos/mm/phys.c:157-172 | giving back a live range leaves exactly the reserved and remaining live frames marked |
| Frames.AllFreed | ntos/mm/phys.c:157-172 | once everything is freed, in whatever order, exactly the reserved frames are marked |
| Frames.FrameAllocator.Scan | ntos/mm/phys.c:106-129 | the scan finds the start of the first run of count + 1 free frames, and fails exactly when there is none |
| Frames.FrameAllocator.DoAllocFrames | ntos/mm/phys.c:105-138 | marks exactly count frames of that run, zeroes them and no other word, or changes nothing |
| Frames.FrameAllocator.AllocFrame | ntos/mm/phys.c:140-155 | the second attempt never changes the outcome; a success is a new live range of zeroed frames that were unused, and for no frames at all a free frame that stays free |
| Frames.FrameAllocator.FreeFrame | ntos/mm/phys.c:157-172 | clears exactly the bits of the given frames |
| Frames.FrameAllocator.Release | ntos/mm/phys.c:157-172 | freeing a live allocation removes exactly that one from the live ones |
| PageTables.EntryFields | ntos/platform/amd64/cpu/mmu.c:20-30 | frame and rights put into an entry are read back from it |
| PageTables.EntryLayout | ntos/platform/amd64/cpu/mmu.c:20-30 | in any 64-bit entry bit 0 is presence, bit 1 writing, bit 2 user access, bits 12 to 51 the frame and bit 63 the bar to execution |
| PageTables.LevelIdxLaw | ntos/platform/amd64/cpu/mmu.c:57-72 | shift and mask give, at every level, the base-512 digit of the page number |
| PageTables.ReachRole | ntos/platform/amd64/cpu/mmu.c:85-134 | every table a walk meets has the role of its place, so tables of different places are different frames |
| PageTables.LowerHalvesApart | ntos/platform/amd64/cpu/mmu.c:271-293 | the tables two spaces use for their lower halves are all different frames |
| PageTables.ReachSame | ntos/platform/amd64/cpu/mmu.c:85-134 | one changed entry affects only walks through it, and only below it |
| PageTables.GrowSame | ntos/platform/amd64/cpu/mmu.c:122-130 | linking a blank table behind an entry that was not present changes no translation of any space |
| PageTables.LeafElsewhere | ntos/platform/amd64/cpu/mmu.c:195-231 | a last-level write changes at most its own page, and in the lower half only in its own space |
| PageTables.LeafMapped | ntos/platform/amd64/cpu/mmu.c:195-231 | the page whose walk ends in the written entry translates to what the entry says, restricted by the levels above |
| PageTables.OpenReach | ntos/platform/amd64/cpu/mmu.c:127-128 | tables made by this code restrict nothing above the last level |
| PageTables.NewSpace | ntos/platform/amd64/cpu/mmu.c:271-293 | a copied root maps nothing in its lower half and translates the upper half like the space it was copied from |
| Mmu.TableFlags | ntos/platform/amd64/cpu/mmu.c:139-166 | the flags are those of an entry with the rights the protection constant stands for (`Mmu.FlagNumbers` and `Mmu.RightsProtect` say which), unknown ones read-only and not executable |
| Mmu.FlagNumbers | ntos/platform/amd64/cpu/mmu.c:139-166 | the flags of every protection constant as numbers |
| Mmu.RightsProtect | ntos/include/mm/vm.h:20-26 | a page allows user writing exactly for 4, user reading for 3 to 5, kernel writing for 1 and 4, fetching for 2 and 5 and user fetching for 5 if and only if it has the rights of that constant |
| Mmu.WriteOrExecute | ntos/include/mm/vm.h:20-26 | no protection allows both writing and fetching |
| Mmu.UserProtection | ntos/include/mm/vm.h:20-26 | 3, 4 and 5 allow kernel and user what 0, 1 and 2 allow the kernel alone |
| Mmu.FreshFrame | ntos/mm/phys.c:136 | a frame fresh from the allocator is a blank table and overlaps no table in use |
| Mmu.Mmu.NewTable | ntos/platform/amd64/cpu/mmu.c:122-130 | adds a table with the role of its place, keeps the tree, and changes no translation; it fails only when no two neighbouring frames are free |
| Mmu.Mmu.GetLevelPhys | ntos/platform/amd64/cpu/mmu.c:85-134 | returns the table on the way to the address, or 0 exactly when there is none; if tables may be added, only when no two neighbouring frames are free; no page of any space translates differently, also on failure half-way |
| Mmu.Mmu.MapSingle | ntos/platform/amd64/cpu/mmu.c:194-231 | on success the page translates to the frame, allows exactly what the protection number is for, and every other translation is unchanged; it fails only without a handle, or when a table is missing and no two neighbouring frames are free, and then changes no translation |
| Mmu.Mmu.UnmapSingle | ntos/platform/amd64/cpu/mmu.c:233-269 | the page is unmapped afterwards and every other translation is unchanged |
| Mmu.Mmu.CreateVas | ntos/platform/amd64/cpu/mmu.c:271-293 | a new space with an empty lower half and a shared upper half; no existing space changes; it fails only when no two neighbouring frames are free |
| Mmu.Mmu.MapPages | ntos/mm/page.c:39-72 | a non-null result means every page of the aligned region is mapped frame by frame and allows what the protection number is for; when stopped early, without a handle or without free frames, exactly a prefix is; all other pages are untouched |
| AddressSpaces.Client.Perform | ntos/platform/amd64/cpu/mmu.c:168-293 | one call (map, unmap, map a range, make or switch a space) does what it should to its own space and pages, keeps all spaces and leaves everything else as it was; it fails only for a space that does not exist, without free frames, or for a range on page 0 |
| AddressSpaces.Client.Run | ntos/platform/amd64/cpu/mmu.c:168-293 | all calls are performed, in order; after any calls in any order, every page no call names in its space, or shares, translates as before; if all calls are about lower halves, no unnamed space and no upper half has changed |
| AddressSpaces.NextCall | ntos/platform/amd64/cpu/mmu.c:168-293 | isolation over the calls so far carries over one more, even when that call makes a space |
| AddressSpaces.BelowIsolates | ntos/platform/amd64/cpu/mmu.c:271-293 | a run that stays below the upper halves changes no translation of any space it does not name, and of no upper half |
| AddressSpaces.MissingStays | ntos/platform/amd64/cpu/mmu.c:104-131 | a root slot filled later belongs to one space: where an unnamed space lacks it, its pages stay unmapped |
| AddressSpaces.Client.CopiesAgree | ntos/platform/amd64/cpu/mmu.c:281-288 | in every state of every run, a page whose root slot was filled when one space was made from another translates the same in both |
| TailQueue.PrepareStep | ntos/include/rtl/queue.h:92-93 | the first two statements of an insertion prepare the element without disturbing the queue |
| TailQueue.StoreStep | ntos/include/rtl/queue.h:94 | storing through the last-pointer links the element behind the old last one |
| TailQueue.LastStep | ntos/include/rtl/queue.h:95 | moving the last-pointer completes the insertion at the tail |
| TailQueue.PassBackStep | ntos/include/rtl/queue.h:119-123 | the first half of a removal links the following element, or the head, past the element |
| TailQueue.UnlinkStep | ntos/include/rtl/queue.h:124 | storing through the back-pointer completes the removal of any element |
| TailQueue.Queue.InsertTail | ntos/include/rtl/queue.h:91-97 | the pointers represent the old queue with the element at its end |
| TailQueue.Queue.Remove | ntos/include/rtl/queue.h:118-128 | the pointers represent the old queue without the element, wherever it was |
| TailQueue.Queue.ScheduleProc | ntos/ke/sched.c:37-57 | the process is last in the queue; null is refused |
| TailQueue.Queue.DequeueProc | ntos/ke/sched.c:59-84 | takes the first process, and answers "not found" exactly for the empty queue |
| SchedProtocol.RunKeeps | ntos/ke/sched.c:37-84 | every single step of every core keeps mutual exclusion, the stage of the pointers and the count |
| SchedProtocol.MoveIsAtomic | ntos/ke/sched.c:68-71 | each step leaves the queue alone or is one whole enqueue or dequeue, and "empty" is answered only from a moment at which the queue is empty, the unlocked look included |
| SchedProtocol.OneEffectPerCall | ntos/ke/sched.c:37-84 | in every interleaving each call takes effect in exactly one move between its start and its answer, and that move and the answer are those of an atomic queue: the process a dequeue returns is the one that move took from the front |
| SchedProtocol.Linearizable | ntos/ke/sched.c:37-84 | in every interleaving: one core at most in the critical section, a queue represented whenever the lock is free, everything that entered left in the same order or is still there, the queue changes only where a call takes effect, and every answered call took effect exactly once |
| Scheduler.Core.SchedSwitch | ntos/platform/amd64/ke/process.c:120-163 | one timer interrupt does to process, queue and frames what the tick function says |
| Scheduler.TickRotates | ntos/platform/amd64/ke/process.c:120-163 | a switch rotates the row of processes by one, saves the interrupted frame and restores the next one |
| Scheduler.RoundRobin | ntos/platform/amd64/ke/process.c:120-163 | after any number k of ticks the row of n processes is rotated by k mod n; from the n-th tick on every process has the frame it was last interrupted with, and each tick puts back the frame found n ticks before |
| Scheduler.BackAfterOneRound | ntos/platform/amd64/ke/process.c:120-163 | among n processes one runs again after exactly n ticks and not before, with the frame it was interrupted with |
| Scheduler.FirstTick | ntos/platform/amd64/ke/process.c:148-157 | on an idle core the first tick starts the front process and drops nobody |
| Scheduler.Arbiter.Cycle | ntos/ke/parb.c:23-44 | picks the current core and stays below the core count |
| Scheduler.OncePerWindow | ntos/ke/parb.c:23-44 | any as many consecutive cycles as there are cores pick each core exactly once |
| Scheduler.Balanced | ntos/ke/parb.c:23-44 | after any number of cycles the pick counts of any two cores differ by at most one |
| Omar.Output.FilePush | tools/omar/omar.c:150-247 | appends exactly the entry's header, name and data, padded to blocks, and for a file without data no padding |
| Omar.Output.WriteArchive | tools/omar/omar.c:150-287 | writing entry by entry and then the trailer gives the archive |
| Omar.EntryLayout | tools/omar/omar.c:45-84 | the format byte by byte: magic 79 77 65 82, type, name length, length and mode lowest byte first around revision 2, name at 15, data, zeros to a multiple of 512 |
| Omar.TrailerLayout | tools/omar/omar.c:160-200 | the trailer byte by byte, up to the mode that is never set |
| Omar.ItemLayout | tools/omar/omar.c:354-391 | which bytes a reader takes for the end, for damage, or for the fields of an entry, and how far it moves on, for any bytes |
| Omar.ReadsBack | tools/omar/omar.c:354-391 | reading at an encoded entry that is no file without data gives back its name, mode, kind, length and data and the exact position of what follows |
| Omar.TrailerIsEof | tools/omar/omar.c:356-359 | the five-byte comparison recognises the trailer because its type byte is zero |
| Omar.ArchiveExtract | tools/omar/omar.c:354-395 | the extraction loop computes the unpacking function, also on damaged archives, whose names end at their first NUL |
| Omar.ExtractArchive | tools/omar/omar.c:150-395 | extracting what was archived, without files without data, gives every entry back in order and stops at the trailer, whatever bytes follow |
| Omar.ExtractExactly | tools/omar/omar.c:222-226 | extracting an archive gives back what was archived exactly when no file in it is without data |
| Omar.EmptyFileHidesNext | tools/omar/omar.c:222-226 | behind a file without data, which the writer leaves unpadded, a small file is lost: extraction reports damage and the boot loader does not find it |
| Omar.ExtractDamaged | tools/omar/omar.c:361-365 | entries in front of damaged bytes are all extracted, and the damage is reported |
| Omar.BootPackGetFile | ntos/ke/bootPack.c:61-118 | the lookup loop computes the lookup function |
| Omar.LookupArchive | ntos/ke/bootPack.c:61-118 | in a written archive, without files without data, a path finds the first entry of that name with its length and data, and is unavailable exactly when there is none, whatever the data contain or follows |
| Omar.LookupDamaged | ntos/ke/bootPack.c:81-84 | entries in front of damaged bytes are still found, and any other path is an invalid parameter |
| ObStore.Store.DirectoryLookup | ntos/ob/obStore.c:53-84 | returns a child exactly when it is the first of that name, `ObjectNotFound` exactly when no child of the directory has the name, and the error for every other case |
| ObStore.Store.LookupObject | ntos/ob/obStore.c:190-252 | goes down from the root along the non-empty components of the path, one lookup each, to the last one, after which the object found is called, or to the first that fails; a name of 31 characters or more ends it |
| ObStore.OneOutcome | ntos/ob/obStore.c:190-252 | going down name by name has one outcome, so the lookup returns nothing else |
| ObStore.ComponentsGrow | ntos/ob/obStore.c:205-246 | the components of a path, character by character: a slash adds nothing, another character goes on with the last name or starts one |
| ObStore.Store.DirectoryAdd | ntos/ob/obStore.c:24-44 | appends the child to an allocated directory and otherwise changes nothing, with the error for every other case |
| ObStore.Store.CreateObject | ntos/ob/obStore.c:86-144 | computes the creation function, with the errors for null parameters, unknown type, null name, parent, name and memory in the code's order |
| ObStore.CreatedOrUnchanged | ntos/ob/obStore.c:86-144 | a failed creation changes no object; a successful one adds exactly one, of the name and type asked for, counted twice if it has a parent |
| ObStore.CreateStatus | ntos/ob/obStore.c:86-126 | each status is returned exactly under its own condition: success if and only if type, name, parent and memory are all in order |
| ObStore.CreateEffect | ntos/ob/obStore.c:128-143 | a success adds the object with the type of its number and puts it last in the list of its parent, if that has one; nothing else changes |
| ObStore.Store.AllocateDir | ntos/ob/obStore.c:254-277 | gives a directory object an empty list |
| ObStore.AppendName | ntos/ob/obStore.c:217-246 | a slash and a name behind a path add exactly one component |
| ObStore.CreatedIsFound | ntos/ob/obStore.c:86-144 | an object created under an allocated directory is found at its path exactly when no older child is called the same |
| ObStore.CreateKeepsPaths | ntos/ob/obStore.c:86-144 | no creation changes what an already resolving path resolves to |
| Numbers.PositionalIs | ntos/rtl/itoa.c:33-36 | the digits stand for the number, and only zero starts with a zero |
| Numbers.DigitsText | ntos/rtl/itoa.c:33-36 | the digits of a number are the one text without leading zeros that stands for it, read by character ranges |
| Numbers.PutDigits | ntos/rtl/itoa.c:33-36 | the digit loop leaves the digits in the buffer, lowest first |
| Numbers.ReverseInPlace | ntos/rtl/itoa.c:44-49 | swapping from both ends inwards reverses the text and nothing else |
| Numbers.ItoaBase10 | ntos/rtl/itoa.c:12-53 | the buffer holds the decimal text of every 64-bit value |
| Numbers.DecimalDecodes | ntos/rtl/itoa.c:12-53 | decimal text is the one text of decimal digits without leading zeros that stands for the value |
| Numbers.ItoaBase16 | ntos/rtl/itoa.c:55-99 | the buffer holds "0x" and at least two hexadecimal digits of the value |
| Numbers.ToInt32 | ntos/rtl/string.c:200-218 | the pointer loops compute the value of a C string |
| Numbers.ToIntLaw | ntos/rtl/string.c:200-218 | spaces, a sign, digits and anything else read as the number of the digits, negative behind a minus |
| Numbers.AnyTextReads | ntos/rtl/string.c:200-218 | every text is of that form |
| Numbers.PrintedReadsBack | ntos/rtl/string.c:200-218 | reading back what was printed gives the number, up to 2^31 - 1, and its negative behind a minus |
| Numbers.HexadecimalDecodes | ntos/rtl/itoa.c:55-99 | hexadecimal text is "0x" and digits that stand for the value, read by character ranges; only a value below 16 has a zero in front |

## Left out

- TlsfAllocator.Tlsf.TlsfRealloc: leaves out the sizes from 2^32 - 7 to 2^64 - 8, which the code takes for zero; what it does with them is stated for the abstract heap by `TlsfRuns.ReallocServes` and `TlsfRuns.OversizeReallocBreaks`.
- TlsfAllocator.Tlsf.BlockTrimUsed: asks for at least a minimum block, so the words are not followed through the trim to nothing of `TlsfRuns.OversizeReallocBreaks`.
- TlsfAllocator.Tlsf.TlsfMemalign: says nothing about alignments that are no powers of two.
- TlsfAllocator.Tlsf.TlsfAddPool: asks for pools below 2^32 bytes, because one of exactly 2^32 falls off the table; writes the sentinel's words before listing the first block instead of after, which touches disjoint words.
- TlsfAllocator.Tlsf.TlsfCheck: is given where the lists lead, which the code does not know; the checks inside its two loops are methods of their own, and sizes that are no multiple of 8, which the code would follow into the middle of a word, are left out.
- TlsfAllocator.Tlsf.TlsfCheckPool: is given the blocks of the pool likewise.
- TlsfAllocator.Tlsf.Good: assumes that the memory ends at least 32 GiB below the top of the 64-bit address space, and keeps the list heads and bitmaps in arrays of their own; the pools and the null block are words of `mem`.
- The links of the null block are scratch words in the code and in the model; nothing is claimed about them.
- Frames.FrameAllocator.AllocFrame: asks for a reserved frame 0, whose address would read as failure; the 32-bit run counter is an integer without bound.
- Frames: the two statistics counters, which are not meant to balance, and setting up the bitmap from the memory map.
- Frames.FrameAllocator.Clear: zeroes word by word instead of byte by byte.
- PageTables.Translate: large pages do not occur, access and dirty bits are not set, and the sign-extension bits of an address are ignored.
- Mmu.Allows: takes write protection as on for the kernel too, and supervisor-mode access and execution prevention and protection keys as off.
- Mmu.Mmu.MapPages: asks for a region that does not wrap around the address space and holds at most 2^36 pages.
- Mmu.Mmu.CreateVas: the current root is a parameter; loading cr3 and flushing the TLB are not part of this model.
- AddressSpaces.Client.Run: a page of the upper half that some call names may have changed in any space that shares its slot; which spaces those are is said only for slots filled at a copy and for slots a space lacks.
- SchedProtocol.Linearizable: one queue; memory is sequentially consistent; callers put in a process only when it is in no queue.
- TailQueue.Queue.ScheduleProc: takes the queue it is given; choosing one through the arbiter is `Scheduler.Arbiter.Cycle`, proved on its own.
- SchedProtocol.StepOf: the read of an unassigned local at ntos/ke/sched.c:64 is taken as a check of `result`, which is never null here.
- Scheduler.Core.SchedSwitch: switching the address space, acknowledging the interrupt and rearming the timer are hardware.
- Scheduler.Arbiter.Cycle: the number of cores is fixed and not zero.
- Omar.Output.FilePush: opening and reading files, and making directories; files of 4 GiB and more.
- Omar.Output.WriteArchive: the entries are given as a list; walking directories to find them is left to the caller.
- Omar.ArchiveExtract: reading past the end of a damaged archive is an outcome of its own where the code has none; the output directory in front of the names, and cutting the joint path at 255 characters, are not part of this model.
- ObStore.Store.CreateObject: freeing objects; allocating a directory's list a second time drops its children, as in the code.
- Numbers.ToInt32: values beyond 32 bits, which overflow in the code.
- Block and pool statistics accessors, the number formatting of `rtlBufPrintf`, `TAILQ_CONCAT`, `TAILQ_INSERT_BEFORE` and the list macros.
- Drivers, traps, the loader, the boot screen, ACPI, system calls and process creation.
