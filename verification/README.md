# Kora kernel: verified models

Dafny models of the parts of the Kora kernel that keep shared state consistent, with proofs of what
they promise. Each module follows one component of the C sources.

- **CopyOnWrite, ForkIsolation, AnonymousPaging**: anonymous memory shared copy-on-write by a family
  of address spaces. The paging code is a class that updates its tables in place; it is proved
  against single steps, and the steps against a machine in which every space has a private copy. The
  memory management unit is one abstract page map per space.
- **AATree, BBTree, BBTreeHead**: the intrusive AA tree that indexes areas, pages and futexes. Shapes
  are pure trees with the level rules; the pointer code on heap nodes is proved to lay out exactly
  the shapes, deletion by swapping node identities included.
- **AddressSpace**: areas of one address space, slot search, and cutting ranges for unmap and
  protect, in bytes and with 32-bit sums where the code has them.
- **AreaIndex, SpaceMemory, SpaceFork**: what ties these together: the order queries on areas are those
  of the tree; mapping, unmapping and protecting byte ranges keeps areas and pages in step and the
  ownership of frames exact; a fork of a whole space gives the child every byte of its parent, and a
  store in one space is seen in that space only.
- **Arena**: the boundary-tag heap with its doubly linked free list.
- **Bits, PageZones**: bit ranges in byte arrays, and physical pages in zones.
- **BlockTree, BlockLookup, Ext2**: ext2 block bitmaps, and truncating, freeing and looking up in the
  four-level block tree of a file.
- **Calendar**: conversion between seconds and calendar fields, against the proleptic Gregorian
  calendar and section 4.16 of the Base Definitions of POSIX.1-2017.
- **PageCache**: the page cache of a file against a flat byte string.
- **RwLock**: the reader/writer lock as atomic steps of any number of threads: exclusion over every
  interleaving, and what each operation answers from what its own steps find.
- **Futex**: futex wait, wake, requeue and timeout with the run queue.
- **Pipe**: the growing ring buffer against a byte queue.
- **HashMap**: the chained hash table, linked nodes included, against a finite map.
- **Machine, Options, Protection, Sums**: what several of these share.

Assertions of the C code are live in the kernel build. Where one can fail, the model has an outcome
for it (`Panic`, `Failed`, `Stopped`); where it cannot, its condition is proved. Memory contents the
code does not initialise are arbitrary. Frames and times that come from elsewhere are parameters, and
so is which device writes fail and whether a truncation is refused.

The target has 32-bit `int`, `long` and `size_t`; signed overflow is taken to wrap. `time_t`, which
these sources do not define, is taken to hold 64 bits.

Some promises do not hold of the code on all inputs. In each case the model keeps the code, a lemma
gives a concrete input, and a contract or lemma says exactly when the promise holds:

- removing an absent key from an AA tree (`BBTreeHead.Tree.Remove`, `AATree.SafeIff`;
  `AATree.AbsentUnsafe`);
- unmapping or protecting a range that ends inside a later area or before a hole, or whose end wraps
  (`AddressSpace.Vmsp.Unmap`, `AddressSpace.Vmsp.Protect`; `AddressSpace.UncleanRanges`,
  `AddressSpace.WrappedRange`);
- mapping where the end of a hint, or a sum of the slot search, wraps (`AddressSpace.Vmsp.Map`;
  `AddressSpace.HintBeyondSpace`, `AddressSpace.SlotBeyondSpace`);
- heap requests whose rounded size wraps (`Arena.RoundedExact`, `Arena.Heap.Malloc`;
  `Arena.RoundedWraps`), and heap chunks of 2 GiB and more, whose size the chunk after them cannot
  record (`Arena.BackRightIff`, `Arena.AlwaysFitsIff`; `Arena.LostBack`);
- pages above 4 GiB (`PageZones.NamedIff`; `PageZones.HighRange`), releasing a page twice
  (`PageZones.Pages.PageRelease`; `PageZones.ReleasedTwice`), and memory ranges without a page boundary
  (`PageZones.Pages.PageRange`; `PageZones.ShortRange`);
- ext2 files of 4 GiB and more (`Ext2.CountRightIff`; `Ext2.CountWrong`), lookups past double
  indirection (`Ext2.Volume.GetBlock`, `BlockLookup.TripleWalks`, `BlockLookup.TripleNever`;
  `BlockLookup.OnePath`), and index blocks taken without being cleared (`BlockLookup.IndexRightIff`;
  `BlockLookup.OldIndex`);
- cached file pages above 4 GiB (`PageCache.FilledRightIff`, `PageCache.WrittenRightIff`,
  `PageCache.WrappedRightIff`, `PageCache.ScatteredRightIff`; `PageCache.HighPage`);
- dates whose day number, and fields whose year, does not fit a 32-bit `long`, and the least day of
  an `int` (`Calendar.DateRightIff`, `Calendar.SecondsRightIff`; `Calendar.DateWrong`,
  `Calendar.YearWrong`, `Calendar.DayWrong`);
- forking areas whose kind does not copy its object or offset (`AddressSpace.CopiesMapIff`;
  `AddressSpace.StackCopied`);
- hash tables, of which the one of size 0 has no bucket (`HashMap.HMap.constructor`);
- growing an empty pipe buffer, and shrinking one whose bytes go round its end
  (`Pipe.PenRightIff`, `Pipe.StraightIff`; `Pipe.EmptyGrows`).

## Model

| member | source | states |
|---|---|---|
| CopyOnWrite.FaultMissingSound | src/mem/vmsp.c:114-137 | Mapping a zeroed frame at an unmapped page keeps the whole frame-ownership invariant and changes no byte any space reads; the entry has the read and write rights of the area and does not run. |
| CopyOnWrite.FaultWriteSound | src/mem/vmsp.c:138-181 | A write fault keeps the invariant and every space's bytes, and gives the old frame back to the allocator if and only if no other page maps it; the entry may be read and written. |
| CopyOnWrite.LastMapping | src/mem/pages.c:177-207 | A frame's table entry reads one, or is missing, if and only if the page asked about is the only one that maps it. |
| CopyOnWrite.DropPageSound | src/mem/vma_anon.c:41-56 | Dropping a page removes it from its own space only; its frame is released if and only if that was its last mapping. |
| CopyOnWrite.ClonePageSound | src/mem/vmsp.c:226-256 | Copying one page entry to a child keeps the invariant (counts, rights, sizes) and gives the child the parent's bytes, whether the frame was private or already shared; both entries of a mapped page have exactly the read and execute rights of the area and no write right. |
| CopyOnWrite.ProtectPageSound | src/mem/vma_anon.c:58-79 | Changing rights keeps the invariant, so a shared frame never becomes writable, and changes no bytes; the entry may be read and run as asked, and written as asked exactly if its frame is private. |
| CopyOnWrite.MapPageSound | src/mem/vmsp.c:25-41 | A page of a new area reads as zeros and nothing else changes. |
| CopyOnWrite.WritableIsSole | src/mem/vmsp.c:163-178 | In every state that keeps the invariant, a writable entry is its frame's only mapping in the whole family of spaces. |
| CopyOnWrite.PutByteSound | src/mem/vmsp.c:163-178 | A store through a writable entry changes that byte of that page of that space and nothing any other space reads. |
| ForkIsolation.StepRefines | src/mem/vmsp.c:114-262 | Every operation of the paging code does to what the spaces read exactly what a machine with one private copy per space does. |
| ForkIsolation.RunRefines | src/mem/vmsp.c:114-262 | The same over every run of maps, faults, stores, protects, unmaps and clones, with the frame-ownership invariant in every state. |
| ForkIsolation.SpaceIsolated | src/mem/vmsp.c:226-256 | No run of operations on other spaces changes what a space reads at any page it covers. |
| ForkIsolation.ForkIsolated | src/mem/vmsp.c:533-550 | After a clone, whatever the parent and other spaces do, the child keeps reading the bytes of the moment of the clone. |
| ForkIsolation.TeardownComplete | src/mem/vmsp.c:553-579 | When no area is left, no frame is out, no entry is listed and every size counter is 0, which is what the assertions at teardown need. |
| ForkIsolation.StartSound | src/mem/vmsp.c:506-524 | The invariant holds before any space exists. |
| AnonymousPaging.Family.constructor | src/mem/vmsp.c:517-524 | A new family holds nothing. |
| AnonymousPaging.Family.ShareAdd | src/mem/pages.c:177-207 | The table entry after adding a count, whether the entry went away, and that a query leaves the table alone. |
| AnonymousPaging.Family.Resolve | src/mem/vmsp.c:114-181 | Which faults are refused, and that an accepted one takes exactly the missing-page or the write-fault step, keeps the invariant and changes no bytes. |
| AnonymousPaging.Family.Create | src/mem/vmsp.c:25-95 | Entering the pages of an anonymous area does what mapping each page does. |
| AnonymousPaging.Family.ResolveAll | src/mem/vmsp.c:98-108 | Mapping a fresh area at once maps every page of it, keeps the invariant and changes no bytes. |
| AnonymousPaging.Family.CreateArea | src/mem/vmsp.c:25-111 | A new anonymous area reads as zeros, whether it is mapped at once or on first use; what every other page reads as stays. |
| AnonymousPaging.Family.UnmapPage | src/mem/vma_anon.c:41-56 | Unmapping one page takes the drop step and keeps the invariant. |
| AnonymousPaging.Family.Unmap | src/mem/vmsp.c:183-212 | The page loop of unmapping an area drops every page of the range and keeps the invariant. |
| AnonymousPaging.Family.ProtectOne | src/mem/vma_anon.c:58-79 | One turn of the protect loop takes the protect step and keeps the invariant. |
| AnonymousPaging.Family.Protect | src/mem/vma_anon.c:58-79 | The loop protects every page of the area and keeps the invariant. |
| AnonymousPaging.Family.CloneOne | src/mem/vmsp.c:226-256 | One turn of the clone loop takes the clone step, with counts and sizes of both spaces exact afterwards, and both entries of a mapped page with exactly the read and execute rights of the area and no write right. |
| AnonymousPaging.Family.CloneArea | src/mem/vmsp.c:214-262 | Cloning an area copies every page of it to the child. |
| AnonymousPaging.Family.CloneSpace | src/mem/vmsp.c:533-550 | Cloning a space clones all its areas, as one fork of the reference machine. |
| AATree.InsertAA | src/stdc/bbtree.c:91-116 | Insertion keeps the level rules of an AA tree and raises the root by at most one level. |
| AATree.InsertElems | src/stdc/bbtree.c:91-116 | Insertion adds exactly the new node at its place in key order. |
| AATree.InsertDuplicate | src/stdc/bbtree.c:107-110 | Inserting a key that is there gives back the same tree, in spite of the skew and split on the way up. |
| AATree.RebalanceAA | src/stdc/bbtree.c:118-132 | Rebalancing a node whose child has sunk by one level restores the level rules. |
| AATree.RebalanceElems | src/stdc/bbtree.c:118-132 | Rebalancing keeps the nodes and their order. |
| AATree.RemoveAA | src/stdc/bbtree.c:134-191 | Removal keeps the level rules and lowers the root by at most one level. |
| AATree.RemoveElems | src/stdc/bbtree.c:134-191 | Removing a present key removes exactly its node and keeps all others in order. |
| AATree.LevelBounds | src/stdc/bbtree.c:118-132 | A tree of root level k has at least 2^k - 1 nodes and depth at most 2k. |
| AATree.SearchNearest | src/stdc/bbtree.c:268-288 | Search returns the exact, the greatest-below or the least-above key of the stored set, and nothing only when there is none. |
| AATree.SafeIff | src/stdc/bbtree.c:165-190 | When removing an absent key leaves the tree intact: no smaller key is stored, or the node of the greatest smaller key has no right subtree. |
| AATree.AbsentUnsafe | src/stdc/bbtree.c:165-190 | A concrete tree and absent key for which removal damages the tree. |
| BBTree.SkewAt | src/stdc/bbtree.c:49-63 | The pointer rewriting of skew lays out the skewed shape, parent links included. |
| BBTree.SplitAt | src/stdc/bbtree.c:74-89 | The pointer rewriting of split lays out the split shape, parent links and level included. |
| BBTree.RebalanceAt | src/stdc/bbtree.c:118-132 | The five rotations lay out the rebalanced shape over the same nodes. |
| BBTree.InsertAt | src/stdc/bbtree.c:91-116 | The recursive insertion lays out the inserted shape; a duplicate leaves the new node untouched. |
| BBTree.SwapOut | src/stdc/bbtree.c:165-190 | Swapping the last node into the place of the deleted one lays out the shape with one node replaced, and rewires the parent above; the assertion on the last node holds. |
| BBTree.RemoveAt | src/stdc/bbtree.c:134-191 | The recursive removal, with its last and deleted pointers, lays out the shape without the node, or, for an absent key in the failing case, leaves a root out of place; the last node of a descent to the left has no left child. |
| BBTreeHead.LeftMost | src/stdc/bbtree.c:218-227 | The first node in key order of a subtree, null for an empty one. |
| BBTreeHead.RightMost | src/stdc/bbtree.c:230-239 | The last node in key order of a subtree, null for an empty one. |
| BBTreeHead.Next | src/stdc/bbtree.c:241-252 | The node that follows in key order, by going down or up; null after the last. |
| BBTreeHead.Previous | src/stdc/bbtree.c:254-265 | The node before in key order, null before the first; so it undoes Next. |
| BBTreeHead.SearchAt | src/stdc/bbtree.c:268-288 | The recursive search over pointers finds what the search over shapes finds. |
| BBTreeHead.Tree.constructor | src/stdc/bbtree.c:37-41 | A new tree is valid and empty. |
| BBTreeHead.Tree.Insert | src/stdc/bbtree.c:193-202 | 0, one more node and count plus one for a fresh key; -1 and the same tree for a taken one; the tree stays valid. |
| BBTreeHead.Tree.Remove | src/stdc/bbtree.c:204-215 | A present key: exactly its node goes, the tree stays valid, count minus one. An absent key: -1, and the tree stays valid if and only if the safe condition holds; if it does not hold, child pointers lead round in a circle. |
| BBTree.TangledNowhere | src/stdc/bbtree.c:168-191 | No tree shape at all is laid out at a node from which child pointers lead round in a circle. |
| BBTreeHead.Tree.Each | src/stdc/bbtree.c:241-252 | First followed by next visits every node once in increasing key order. |
| BBTreeHead.Tree.SearchNode | src/stdc/bbtree.c:268-288 | Eq, le and ge searches on any valid tree return the nearest eligible node, null only if there is none. |
| AddressSpace.FindSlot | src/mem/vmsp.c:266-285 | The lowest address where the length fits, whenever there is one. When there is none: 0, except for an empty space that is too small and for a wrapping sum, where the wrong address is named. |
| AddressSpace.SlotBeyondSpace | src/mem/vmsp.c:274-281 | A concrete full kernel space where no gap fits and the wrapped sum hides it. |
| AddressSpace.SlotAddress | src/mem/vmsp.c:287-304 | Which hints are taken; that is right, taken exactly when the range is in bounds and free, if and only if the end of the range does not wrap (or another test refuses it anyway). |
| AddressSpace.HintExact | src/mem/vmsp.c:287-304 | A hint whose end does not wrap is taken if and only if its range is free; one whose end wraps is never free. |
| AddressSpace.HintBeyondSpace | src/mem/vmsp.c:289 | A concrete hint above a user space that is accepted. |
| AddressSpace.SplitMaps | src/mem/vmsp.c:379-392 | Cutting an area in two at an inner address changes the mapping of no address. |
| AddressSpace.TrimLoses | src/mem/vmsp.c:410-421 | A cut computed from the start of the range in a later area leaves the last address of that area unmapped. |
| AddressSpace.TrimStaysLost | src/mem/vmsp.c:400-424 | No later cut of the same walk maps that address again. |
| AddressSpace.UncleanRanges | src/mem/vmsp.c:400-424 | Concrete areas with a range that is cut wrongly and one that stops on the assertion. |
| AddressSpace.WrappedRange | src/mem/vmsp.c:373 | A concrete length whose end wraps: the range is let through although no areas cover it. |
| AddressSpace.WithoutUnmaps | src/mem/vmsp.c:446-457 | Removing the areas that start in a range, when an area ends with it, unmaps exactly the range. |
| AddressSpace.CreateGrants | src/mem/vmsp.c:25-95 | The area created for a request maps every address of its range to what was asked for, kind by kind: object, place in it and each right. |
| AddressSpace.RemapRegrants | src/mem/vma_dlib.c:67-75 | What changing the rights of an area makes of a mapping, kind by kind and right by right. |
| AddressSpace.RedoneProtects | src/mem/vmsp.c:488-499 | Changing the areas that start in a range, when an area ends with it, changes the rights of exactly the range. |
| AddressSpace.Vmsp.constructor | src/mem/vmsp.c:506-515 | A new space is valid, empty and of size 0. |
| AddressSpace.Vmsp.FindArea | src/mem/vmsp.c:306-315 | The area that covers an address, none if and only if the address is not covered. |
| AddressSpace.Vmsp.Choose | src/mem/vmsp.c:332-350 | Which requests get the hint, which the slot the search finds, which fail and with which error: for every request. |
| AddressSpace.Vmsp.Map | src/mem/vmsp.c:317-362 | All error conditions, for every request, those on which vma_create stops included. The new area covers a range nothing was mapped in, every other address keeps its mapping and areas stay disjoint and in bounds, if and only if the end of a hint taken does not wrap or, without one, there is room; then every new address maps, kind by kind, to the object and offset asked for with each right spelled out, and v_size stays the page total if and only if the base is aligned. |
| AddressSpace.Vmsp.CheckRange | src/mem/vmsp.c:364-398 | Accepts a range if and only if it lies in adjacent areas of one divisible kind and one object up to its 32-bit end; then an area starts at its base. |
| AddressSpace.Vmsp.CheckLimit | src/mem/vmsp.c:400-424 | With the 32-bit end of the range: stops at it, fails its assertion past it, otherwise cuts the area where the code computes. |
| AddressSpace.Vmsp.UnmapRange | src/mem/vmsp.c:446-457 | The loop unmaps exactly the range if and only if the range ends inside its first area, or where an area ends with the next area adjacent or none; an end that wraps stops it on the assertion with nothing removed. |
| AddressSpace.Vmsp.ProtectRange | src/mem/vmsp.c:487-499 | The same for rights, and the return value is -1 if and only if an area in the range refuses them. |
| AddressSpace.Vmsp.Unmap | src/mem/vmsp.c:426-463 | Refused requests change nothing; a length that wraps stops on the assertion, with no mapping changed; otherwise exactly the range loses its mapping, all else keeps object, offset and rights, areas stay disjoint, v_size stays the page total: all this if and only if the range is one whole area or does not wrap and can be cut cleanly. |
| AddressSpace.Vmsp.Protect | src/mem/vmsp.c:465-502 | Refused requests change nothing; a length that wraps stops on the assertion; otherwise exactly the range gets the new rights, under the same exact condition, with the exact return value: anonymous memory all of them, files all but execution, a library once and reading only, alone or with one other. |
| AreaIndex.FirstIs | src/stdc/bbtree.c:218-227 | The first area by address is the first item of the tree that indexes the areas. |
| AreaIndex.NextIs | src/stdc/bbtree.c:241-252 | The next area is the next item. |
| AreaIndex.AtOrBelowIs | src/stdc/bbtree.c:268-288 | The area at or below an address is what the search for the nearest smaller key finds. |
| AreaIndex.InsertIndexes | src/stdc/bbtree.c:193-202 | Inserting an area keeps tree and areas in step. |
| AreaIndex.RemoveIndexes | src/stdc/bbtree.c:204-215 | Removing an area keeps tree and areas in step. |
| SpaceMemory.Map | src/mem/vmsp.c:317-362 | Mapping anonymous memory: every error condition; otherwise the area is added, areas and pages stay in step, the frame-ownership invariant holds, the new pages read as zeros and every other page of every space as before; an address of the range may be read exactly if asked for, and written exactly if asked for without execution. |
| SpaceMemory.Unmap | src/mem/vmsp.c:426-463 | Unmapping a byte range: a request no area takes changes nothing; otherwise exactly its pages leave the areas and, if anonymous, the page tables, areas and pages stay in step, frames are released exactly with their last mapping. |
| SpaceMemory.Protect | src/mem/vmsp.c:465-502 | Changing the rights of a range: a request no area takes changes nothing; otherwise exactly the range gets the rights, with the exact return value, areas and pages stay in step, no shared frame becomes writable, nobody's bytes change. |
| SpaceFork.PagesExact | src/mem/vmsp.c:543-547 | Going through the areas with first and next, and through the pages of each, visits every anonymous page of the space once, in address order. |
| SpaceFork.CloneNext | src/mem/vmsp.c:214-262 | One area and its pages are copied; what is left to copy is what was left before, without them. |
| SpaceFork.Fork | src/mem/vmsp.c:533-550 | It stops exactly for the space of the kernel or bounds that differ. Otherwise the child has a copy of every area and is in step with the pages as its parent is, reads at every address the anonymous byte its parent reads there, both can load from every readable anonymous address at once, and no byte of any other space changes. |
| SpaceFork.Load | src/mem/vmsp.c:593-615 | A load returns the byte at the address, faults included, and changes no byte of any space. It is refused exactly where the entry that is or would be mapped cannot be read: never in a readable anonymous area, always where there is no readable or writable one. |
| SpaceFork.Store | src/mem/vmsp.c:593-615 | A store changes the byte at that address in that space and no other byte of any space, whoever shares the page; it is refused exactly where no writable anonymous area is. |
| AddressSpace.StackCopied | src/mem/vmsp.c:214-224 | A stack that names its task: its copy does not. |
| AddressSpace.CopiesMapIff | src/mem/vmsp.c:214-224 | The copies of the areas map every address to the same thing if and only if no area has an object or offset that its kind does not copy. |
| Arena.EmptyIsWhole | src/stdc/arena.c:240-286 | With nothing allocated, in whatever order it was freed, the arena is its single initial free chunk and used_ is 0, whatever its length. |
| Arena.BackRightIff | src/stdc/arena.c:44 | A chunk's 31-bit back size leads to the chunk before it if and only if that one is smaller than 2 GiB. |
| Arena.AlwaysFitsIff | src/stdc/arena.c:33 | That is so in every state of an arena if and only if the arena has no room for a chunk of 2 GiB and another behind it. |
| Arena.LostBack | src/stdc/arena.c:98-114 | A chunk of 2 GiB in an allocated arena, and the chunk behind it, whose back size is 0. |
| Arena.GapInChunk | src/stdc/arena.c:194-231 | Room for n bytes anywhere between allocated blocks is room inside one free chunk, because free neighbours are always merged. |
| Arena.DataIsFree | src/stdc/arena.c:28-39 | The invariant does not depend on what is written into allocated chunks or left in stale headers. |
| Arena.RoundedExact | src/stdc/arena.c:183 | The rounded size holds the header and the request if and only if the 32-bit sum does not wrap, and which requests round to 0. |
| Arena.RoundedWraps | src/stdc/arena.c:183 | Two concrete requests whose size wraps. |
| Arena.Taken | src/stdc/arena.c:47-65 | Unlisting a free chunk keeps tiling, back sizes, list and used_ exact and makes it an allocated block. |
| Arena.Given | src/stdc/arena.c:67-96 | Listing an allocated chunk between allocated neighbours keeps the invariant and frees exactly it. |
| Arena.Merged | src/stdc/arena.c:116-125 | Collapsing two neighbours keeps the invariant, the allocated total and the 31-bit back sizes included. |
| Arena.Cuts | src/stdc/arena.c:98-114 | Splitting a chunk keeps the invariant, the allocated total and the 31-bit back sizes included. |
| Arena.Heap.constructor | src/stdc/arena.c:156-173 | A new arena is one free chunk. |
| Arena.Heap.FreelistRm | src/stdc/arena.c:47-65 | The doubly linked list afterwards is the list without the chunk; sizes and all other marks stay. |
| Arena.Heap.FindPlace | src/stdc/arena.c:86-89 | The scan ends on the element before the first later one that is smaller than the chunk, or on the last. |
| Arena.PlaceIs | src/stdc/arena.c:75-89 | Where a chunk enters the free list, by the sizes of the chunks around. |
| Arena.Heap.FreelistAdd | src/stdc/arena.c:67-96 | The list afterwards is a proper doubly linked list of the old elements in their order, with the chunk in front of a head that is not smaller, else behind the head and all that follow it without being smaller. |
| Arena.Heap.SplitChunk | src/stdc/arena.c:98-114 | Two chunks in place of one, with the 31-bit back size of the chunk after them; after no bytes, one chunk that has lost its back size. |
| Arena.Heap.Collapse | src/stdc/arena.c:116-125 | One chunk in place of two, with the 31-bit back size of the chunk after them. |
| Arena.Heap.FirstFit | src/stdc/arena.c:194-215 | The first listed chunk that is large enough, none if and only if none is. |
| Arena.Heap.CarveNothing | src/stdc/arena.c:217-221 | Cutting a chunk after no bytes lists it again and clears its back size, which keeps the arena right if and only if it was 0. |
| Arena.Heap.Malloc | src/stdc/arena.c:176-237 | EINVAL exactly above the limit; ENOMEM if and only if no gap between allocated blocks has room; the chunk taken is the first listed one with room; the block returned is an allocated one if and only if the size does not round to 0, and then it overlapped nothing allocated, has the rounded size or less than 16 bytes more, and no other block changes. If it rounds to 0 a free chunk is returned and stays free, and the arena stays right if and only if its back size was 0, which below 2 GiB means that it is the first chunk. |
| Arena.Heap.Free | src/stdc/arena.c:240-286 | Exactly the block freed leaves the allocated blocks, with all merging, and the invariant holds. |
| Bits.BitsFill | src/stdc/bits.c:24-68 | bitsset and bitsclr change exactly the bits of the range. |
| Bits.BitsFirstClear | src/stdc/bits.c:70-83 | The first clear bit of the whole bytes, -1 if and only if all are set. |
| Bits.BitsTest | src/stdc/bits.c:85-110 | What the test answers and which bits it clears, for every start and count. |
| Bits.TestOne | src/stdc/bits.c:85-110 | On one bit: a pure test on a byte boundary, an erasure that answers true elsewhere. |
| PageZones.TakePage | src/mem/pages.c:110-130 | The lowest page of the zone that was not out, and it alone, becomes out; the free count stays the number of clear bits. |
| PageZones.PutPage | src/mem/pages.c:149-162 | A page that is out comes back. One that is not is caught by an assertion if and only if the zone has no bitmap or its bit is on a byte boundary; otherwise the zone is left wrong. |
| PageZones.ShortRange | src/mem/pages.c:54-56 | A concrete range that counts -1 pages. |
| PageZones.ReleasedTwice | src/mem/pages.c:149-162 | A concrete zone whose freed page can be released again, and the wrong count that leaves. |
| PageZones.NamedIff | src/mem/pages.c:133 | The address returned for a page names that page if and only if the page lies below 4 GiB. |
| PageZones.SameAddress | src/mem/pages.c:133 | Two pages have the same address if and only if they lie a multiple of 4 GiB apart. |
| PageZones.CountsWhole | src/mem/pages.c:50-57 | A page is counted if and only if it lies within the range, wherever the range starts and ends; the count is negative, and then -1, exactly if the range ends before its first page boundary. |
| PageZones.HighRange | src/mem/pages.c:50-57 | A concrete memory range above 4 GiB whose page has the address of a page below. |
| PageZones.Pages.constructor | src/mem/pages.c:48 | No zones, no pages. |
| PageZones.Pages.PageRange | src/mem/pages.c:50-81 | The zones afterwards hold exactly the old pages and the whole pages of the range; the counters stay right if and only if the range reaches its first page boundary and holds no page already held. |
| PageZones.Pages.PageNew | src/mem/pages.c:106-138 | The lowest page that is not out of the first zone that has one is taken, none if and only if the free counter is 0; free plus out stays the total; the address returned names the page if and only if it lies below 4 GiB, and is that of no page out if no memory lies above. |
| PageZones.Pages.PageRelease | src/mem/pages.c:142-165 | For the page an address names: releasing one that is out undoes taking it; an unknown page changes nothing; exactly when a double release is caught, and that one that is not caught breaks the counters. |
| Ext2.Volume.AllocBlock | drivers/fs/ext2/blocks.c:32-61 | 0 if and only if no group has a free block; otherwise the lowest block that was not in use, in use now, and one free block less. |
| Ext2.Volume.ReleaseBlock | drivers/fs/ext2/blocks.c:63-79 | A block outside the volume is refused; any other is counted free, which keeps the bitmaps and counters right if and only if it was in use and is not block 0; the digit assertion holds. |
| Ext2.Volume.TruncateEntry | drivers/fs/ext2/blocks.c:163-177 | A data entry exists afterwards if and only if it is below the block count; a kept one is untouched, a new one is zeroed. |
| Ext2.Volume.TruncateDirect | drivers/fs/ext2/blocks.c:161-178 | The same for a whole table, no block referenced twice, free blocks moving by the change in references. |
| Ext2.Volume.Power | drivers/fs/ext2/blocks.c:23-30 | The power that spans a subtree. |
| Ext2.Volume.TruncateTables | drivers/fs/ext2/blocks.c:195-200 | The recursion over a table of index blocks does this for every subtree. |
| Ext2.Volume.TruncateIndirect | drivers/fs/ext2/blocks.c:180-208 | An index block exists afterwards if and only if its first logical block is below the count, at every depth, with survivors unchanged, nothing shared, other blocks of the volume untouched and free counts exact. |
| Ext2.Volume.Truncate | drivers/fs/ext2/file.c:103-128 | All fifteen entries of an inode: shape for the block count computed, survivors, ownership and free counts, from any sparse starting tree with enough free blocks; the count is that of the size if and only if the size rounded up stays below 4 GiB, and the size field holds the size if and only if that does. |
| Ext2.CountExact | drivers/fs/ext2/file.c:109 | The number of blocks of a size is the only one that holds the size with less than one block to spare. |
| Ext2.CountRightIff | drivers/fs/ext2/file.c:109 | The block count of a size is right if and only if the size plus a block less one byte is below 4 GiB. |
| Ext2.CountWrong | drivers/fs/ext2/file.c:109 | A concrete size just above 4 GiB that counts one block. |
| Ext2.CapacityFits | drivers/fs/ext2/file.c:114-122 | Logical block numbers fit an int for blocks of up to 4 KiB, and for none larger. |
| Ext2.Volume.FreeTree | drivers/fs/ext2/blocks.c:211-251 | Freeing a tree releases exactly its blocks. |
| Ext2.Volume.FreeBlocks | drivers/fs/ext2/blocks.c:253-272 | Freeing a file releases exactly its blocks and returns 0. |
| Ext2.Volume.TakeBlock | drivers/fs/ext2/blocks.c:112-113 | Taking a block for a missing index block lays out an empty subtree if the block holds zeros. |
| Ext2.Volume.GetDirect | drivers/fs/ext2/blocks.c:81-96 | Looking up in an index block finds the leaf of the tree; asked to, it adds it, with every other logical block and every other block of the volume as before, and fails exactly when there is no index block or no free block. |
| Ext2.Volume.GetIndirect | drivers/fs/ext2/blocks.c:98-121 | The same through two levels, adding a missing index block as well; it returns 0 exactly when more blocks are missing than free, and stops if the index block taken holds old entries. |
| Ext2.Volume.GetFirst | drivers/fs/ext2/blocks.c:126-131 | The same for the direct entries of the inode. |
| Ext2.Volume.GetSingle | drivers/fs/ext2/blocks.c:134-139 | The same below the single indirect entry, which is taken if it is missing. |
| Ext2.Volume.GetDouble | drivers/fs/ext2/blocks.c:141-147 | The same below the double indirect entry. |
| Ext2.Volume.GetTriple | drivers/fs/ext2/blocks.c:149-155 | Without allocation the walk of the code; with it an entry that is there is replaced, by 0 exactly if no block is free, and its tree lost; one that is missing stays missing. |
| Ext2.Volume.GetBlock | drivers/fs/ext2/blocks.c:123-158 | Up to double indirection: a logical block of a file is found, or added if asked, with the ownership of blocks exact, every other logical block where it was, and 0 exactly when more blocks are missing than free. Past it, in terms of the tree, what is found instead. Beyond the capacity, 0. |
| BlockLookup.AddedUp | drivers/fs/ext2/blocks.c:98-121 | What is added under one entry of an index block is the only thing added under the block. |
| BlockLookup.IndexRightIff | drivers/fs/ext2/blocks.c:112-118 | A block taken for an index block, which the code does not clear, lays out a tree if and only if it holds zeros. |
| BlockLookup.OldIndex | drivers/fs/ext2/blocks.c:112-118 | An index block taken with one old entry. |
| BlockLookup.StaleNoTree | drivers/fs/ext2/blocks.c:112-118 | If the block taken for an index block holds an old entry, no tree is laid out from it, whatever the tree. |
| BlockLookup.TripleWalks | drivers/fs/ext2/blocks.c:98-121 | For every tree and logical block past double indirection, exactly what the walk comes to: 0, a division by zero or a read past an index block, or another logical block of the file, and which. |
| BlockLookup.TripleNever | drivers/fs/ext2/blocks.c:98-121 | No logical block past double indirection is found in every file: for each there is a file that has it and in which the walk returns 0, divides by zero or reads past an index block. |
| BlockLookup.OnePath | drivers/fs/ext2/blocks.c:98-121 | The file that has one such block and no other, in which it is not found. |
| BlockTree.TruncatedFile | drivers/fs/ext2/file.c:103-128 | After truncation a logical block has a data block if and only if it is below the block count, a survivor is the same block, and no block is referenced twice. |
| BlockTree.LeafIff | drivers/fs/ext2/blocks.c:180-208 | In a tree of the truncated shape a logical block has a leaf if and only if it is below the block count. |
| BlockTree.LeafKept | drivers/fs/ext2/blocks.c:161-208 | A leaf that was there and still is, is the same block. |
| BlockTree.CutNeed | drivers/fs/ext2/blocks.c:161-208 | A truncation adds no more blocks than the missing ones. |
| Calendar.DateCounts | src/stdc/time.c:178-239 | The calendar built one day at a time from 1970-01-01 has the POSIX day number. |
| Calendar.DateIs | src/stdc/time.c:178-239 | Each day number belongs to one date only. |
| Calendar.YearToSecsFast | src/stdc/time.c:71-85 | The 1902 to 2038 branch gives the day number of the first of January and the leap flag, within 32 bits. |
| Calendar.YearToSecsGeneral | src/stdc/time.c:87-133 | The general branch gives the same for every year whose distance from 2000 fits a long, and that of the year the long holds otherwise. |
| Calendar.YearToSecs | src/stdc/time.c:69-134 | So both branches agree with the calendar, and with each other, if and only if the distance from 2000 fits a long. |
| Calendar.MonthToSecs | src/stdc/time.c:136-149 | The seconds of the year before a month. |
| Calendar.TmToSecs | src/stdc/time.c:151-176 | For any field values, months out of range included: the seconds they stand for, if and only if the year they stand for, counted from 2000, fits a 32-bit long and the day is not the least int. |
| Calendar.SecondsRightIff | src/stdc/time.c:151-176 | The seconds computed from the year that the long holds and the day that the int holds are those meant if and only if both fit: the two errors cannot cancel. |
| Calendar.YearWrong | src/stdc/time.c:166 | Concrete fields whose year does not fit, and whose seconds are wrong. |
| Calendar.DayWrong | src/stdc/time.c:171 | The least day of an int counts as 2 to the 32 days later, still within the accepted range. |
| Calendar.TakeCycle | src/stdc/time.c:200-213 | One cycle length is taken out, the last year of a cycle being kept in it. |
| Calendar.MonthOf | src/stdc/time.c:223-226 | The month from March and the day in it. |
| Calendar.DateFields | src/stdc/time.c:200-232 | Date and day of the year of any day number are those of the calendar. |
| Calendar.SecsToTm | src/stdc/time.c:178-239 | Range check; time of day and weekday of every timestamp; the date of the day number that the 32-bit long holds. |
| Calendar.DateRightIff | src/stdc/time.c:201 | The date is right if and only if the day number fits a 32-bit long. |
| Calendar.DateWrong | src/stdc/time.c:201 | A concrete timestamp in range whose date is wrong. |
| Calendar.RoundTrip | src/stdc/time.c:151-239 | Seconds to fields and back is the identity if and only if the day number fits. |
| Calendar.TimeGm | src/stdc/time.c:262-275 | Overflow exactly when the seconds computed are out of range; otherwise those seconds, which are the ones meant under the same exact condition, and every field in its normal range, the weekday that of the day counted from 1 January 1970 and the day of the year that of month and day. |
| PageCache.BlockFile.constructor | src/vfs/block.c:367-374 | An empty cache shows the device. |
| PageCache.BlockFile.Get | src/vfs/block.c:170-196 | One more reference, off the eviction list, whose order stays; a missing page enters unread or is not found; what the cache shows stays. |
| PageCache.BlockFile.Fill | src/vfs/block.c:79-131 | The page holds what lies at its 32-bit device offset; a cache that shows the file still does if and only if that is what lies at the page's own place. |
| PageCache.BlockFile.Writeback | src/vfs/block.c:133-168 | Unless the device fails, the part of the page within the file reaches it at its 32-bit offset and the page is clean; if it fails, nothing changes. The assertion on the offset holds. |
| PageCache.BlockFile.Rel | src/vfs/block.c:198-221 | One reference less. The last one writes a dirty page back, and lists it at the front for eviction, exactly if the device does not fail or it was clean; nothing else reaches the device. |
| PageCache.BlockFile.Fetch | src/vfs/block.c:224-248 | A referenced page. A cache that shows the flat file still does if and only if the page was there or is read from its own place; then the page holds what the file holds there. |
| PageCache.BlockFile.Release | src/vfs/block.c:250-270 | Undoes one fetch; a changed page is written, at its device offset, exactly with the last reference and if the device does not fail, and then it alone; a page below 4 GiB said to be dirty is never lost. |
| PageCache.BlockFile.Poke | src/vfs/block.c:274-335 | A holder's write to a page below 4 GiB is a write to the flat file. |
| PageCache.BlockFile.Scavenge | src/vfs/block.c:63-77 | Takes the oldest pages, as many as asked and there are, every one clean and unreferenced; the file reads the same. |
| PageCache.BlockFile.Read | src/vfs/block.c:274-303 | An error if and only if the offset is past the end. Up to 4 GiB it returns what the flat file holds, up to its end; with nothing pending, every byte anywhere is that of its offset reduced to 32 bits. A page of the range left dirty before is clean after, exactly if nobody holds it and the device does not fail. |
| PageCache.BlockFile.Grow | src/vfs/block.c:308-312 | The file and the device grow with zeros, exactly if the driver does not refuse; the cache goes on to show the file. |
| PageCache.BlockFile.WriteRange | src/vfs/block.c:314-335 | The loop on a file that holds the range: every byte is taken, the flat file holds them, and each page of the range is clean afterwards exactly if nobody else holds it and the device takes it. |
| PageCache.BlockFile.Write | src/vfs/block.c:305-335 | -1, with nothing changed, exactly for a refused growth. Otherwise the flat file grows with zeros if needed and holds the bytes; the cache shows it if the range ends within 4 GiB. Wherever it ends, with nothing pending before and no other cached page on the same device blocks: nothing is pending after if and only if nobody else holds a page of the range and no write fails, and then every byte reaches its offset reduced to 32 bits and no other byte of the device changes. |
| PageCache.Evicts | src/vfs/block.c:66-75 | The page at the end of the eviction list is clean and unreferenced, and the cache without it still shows the file. |
| PageCache.Cleans | src/vfs/block.c:150-165 | After a write-back of a page below 4 GiB device and file agree on it. |
| PageCache.FilledRightIff | src/vfs/block.c:117 | A page is read from its own place on every device if and only if it lies below 4 GiB. |
| PageCache.WrittenRightIff | src/vfs/block.c:149-157 | A page is written back to its own place on every device if and only if it lies below 4 GiB. |
| PageCache.WrappedRightIff | src/vfs/block.c:274-303 | The bytes read from a settled cache are those of the file, for every device, if and only if the range ends within 4 GiB. |
| PageCache.ScatteredRightIff | src/vfs/block.c:305-335 | Those bytes are a write to the file, for every device, if and only if the range ends within 4 GiB. |
| PageCache.ReadBack | src/vfs/block.c:274-335 | Reading the range back gives what was written, wherever it lies. |
| PageCache.HighPage | src/vfs/block.c:117 | The first page past 4 GiB is read from, and written over, the start of the device. |
| RwLock.StepKeeps | include/kora/rwlock.h:58-130 | Every atomic step of every operation keeps the invariant. |
| RwLock.RunSafe | include/kora/rwlock.h:58-130 | Over every interleaving of any number of threads no writer holds together with a reader or another writer, and the counter is exactly the threads that incremented and have not decremented. |
| RwLock.Quiet | include/kora/rwlock.h:80-89 | When every thread is idle again the lock is as it was made. |
| RwLock.TryReadAnswers | include/kora/rwlock.h:92-100 | Whatever the other threads do between its steps: it reads if and only if its look at the lock word finds 0; otherwise its next step leaves it idle. |
| RwLock.TryWriteAnswers | include/kora/rwlock.h:103-117 | It writes if and only if it finds no reader, then the lock word 0, then still no reader; after each other answer it is idle. |
| RwLock.UpgradeAnswers | include/kora/rwlock.h:120-130 | It is refused and reads on if and only if it finds the lock taken; otherwise it writes if and only if it has since found no reader. |
| RwLock.ReadLockAnswers | include/kora/rwlock.h:58-70 | It reads after its third step if and only if that found the lock free, and at the latest when four steps in a row have. |
| RwLock.ReadLockWaits | include/kora/rwlock.h:58-70 | While it finds the lock taken it does not read, and once it has backed off it stays off the reader counter. |
| RwLock.WriteLockAnswers | include/kora/rwlock.h:72-78 | Once it has found the lock free, at first sight or at two steps in a row, it writes if and only if it has since found no reader. |
| RwLock.WriteLockWaits | include/kora/rwlock.h:72-78 | It holds the lock only if it found it free, and writes only if it found no reader after that. |
| RwLock.AloneGranted | include/kora/rwlock.h:58-130 | A thread nobody disturbs gets a free lock by each of the calls in the given number of steps, the sole reader by an upgrade, with both words as they should be. |
| RwLock.UnlockAnswers | include/kora/rwlock.h:80-89 | One reader less, or the lock free, and the thread idle. |
| RwLock.HolderSees | include/kora/splock.h:46-78 | The spin lock word is set while a thread holds it. |
| Futex.Kernel.constructor | src/tasks/clock.c:291-301 | No tasks, no futexes. |
| Futex.Kernel.Open | src/tasks/clock.c:111-133 | One more handle, on the futex of that address, made if asked for. |
| Futex.Kernel.Close | src/tasks/clock.c:135-153 | One handle less; the futex goes with its last reference, and its queue is empty then; no queue changes. |
| Futex.Kernel.Unregister | src/tasks/clock.c:80-87 | The task leaves the timer list, all others stay in their order. |
| Futex.Kernel.Register | src/tasks/clock.c:60-78 | A task with a timeout joins the end of the timer list with its time. |
| Futex.Kernel.WakeAdvent | src/tasks/clock.c:97-163 | One waiter leaves its queue and its timer, what is before and behind it stays in order, and joins the front of the run queue. |
| Futex.RemovedWithout | include/kora/llist.h:158-190 | Taking a task out of a list leaves what was before it and what was behind it, in that order. |
| Futex.Kernel.WakeSome | src/tasks/clock.c:204-211 | Exactly min(n, waiters) are woken, newest first. |
| Futex.Kernel.Wake | src/tasks/clock.c:237-240 | The same as one call, with every other queue and all handles as before. |
| Futex.Kernel.ShiftSome | src/tasks/clock.c:220-230 | Up to m waiters move to the other futex, with both reference counts. |
| Futex.Kernel.Requeue | src/tasks/clock.c:199-235 | The n newest waiters are woken, the next m moved in order, none if the second address is null, the rest stay; every count stays exact. It never comes back if and only if waiters are to move from an existing futex to itself. |
| Futex.Kernel.Wait | src/tasks/clock.c:174-189 | Queued and off the processor if the word matches, with a timer if asked; otherwise nothing but the check. |
| Futex.Kernel.Finish | src/tasks/clock.c:190-196 | A woken task closes its wait. |
| Futex.Kernel.Tick | src/tasks/clock.c:319-346 | Exactly the waiters whose time is past become ready; all other tasks stay where they are. Every queue and the timer list hold what is left of them in their old order; the run queue is the tasks woken, the last of the timer list first, in front of what it was. |
| Futex.Kernel.Add | src/tasks/scheduler.c:40-48 | A new task joins the run queue. |
| Futex.Kernel.Switch | src/tasks/scheduler.c:60-101 | The running task, if any, goes to the run queue, or is finished if it asks to be or was aborted, and the oldest ready task runs. |
| Futex.Kernel.Dispatch | src/tasks/scheduler.c:92-99 | The oldest ready task runs, none if and only if none is ready. |
| Pipe.Pushes | src/vfs/pipe.c:169-177 | Bytes written at the pen join the end of the queue, wherever the ring is. |
| Pipe.Pops | src/vfs/pipe.c:220-228 | Bytes at the read pen are the front of the queue, and the rest stays. |
| Pipe.Grows | src/vfs/pipe.c:52-61 | Growing a buffer that is not empty keeps the queue. |
| Pipe.PenRightIff | src/vfs/pipe.c:52-68 | The pens of a grown buffer agree with its bytes if and only if there are any. |
| Pipe.EmptyGrows | src/vfs/pipe.c:57-59 | A new pipe grown to two pages: its write pen is a page off. |
| Pipe.StraightIff | src/vfs/pipe.c:69-72 | Copying the bytes in a straight line is right if and only if they do not go round the end or are repeated behind it. |
| Pipe.Pipe.constructor | src/vfs/pipe.c:296-310 | A new pipe is empty and can double up to its largest size. |
| Pipe.Pipe.Resize | src/vfs/pipe.c:46-81 | When it fails, and that it keeps the bytes if and only if it grows a buffer that is not empty, or shrinks one whose bytes do not go round the end (or are repeated behind it). |
| Pipe.Pipe.WriteRun | src/vfs/pipe.c:152-180 | From one wait to the next: the bytes taken join the queue in order; it waits only on a full buffer of the largest size; every resize it makes succeeds. |
| Pipe.Pipe.Write | src/vfs/pipe.c:124-185 | A hung-up pipe takes nothing; otherwise bytes are taken from the front and join the queue, all of them unless it must wait, which it does only on a full buffer of the largest size. |
| Pipe.Pipe.ReadRun | src/vfs/pipe.c:205-232 | As many bytes as asked and there are, from the front of the queue; it waits if and only if there are none and the pipe is not hung up. What was read is always a prefix of what was written. |
| HashMap.Relinks | src/stdc/hmap.c:108-115 | Moving a node to the doubled table keeps what the two tables together bind, each key in one of them, in the bucket its hash selects. |
| HashMap.HMap.RelinkHead | src/stdc/hmap.c:108-115 | One turn of the inner loop unlinks exactly the first node of an old bucket, links it in front of its new one, and keeps what the two tables together bind. |
| HashMap.HMap.constructor | src/stdc/hmap.c:76-84 | A new table is the empty map, if and only if it has a bucket: the size check lets 0 through. |
| HashMap.OnePlace | src/stdc/hmap.c:33-39 | A node is in one bucket at one place only. |
| HashMap.HMap.Prepend | src/stdc/hmap.c:134-142 | A new node heads its bucket, and every chain is linked as before behind it. |
| HashMap.HMap.SeekPrev | src/stdc/hmap.c:160-178 | The walk finds the node before the one with the key, or none for the first, and finds nothing exactly when the key is not there. |
| HashMap.HMap.Bypass | src/stdc/hmap.c:163-176 | The links afterwards lead along the chain without the node. |
| HashMap.HMap.Get | src/stdc/hmap.c:145-155 | What the map holds for the key. |
| HashMap.HMap.Grow | src/stdc/hmap.c:101-118 | The doubled table is the same map. |
| HashMap.HMap.Put | src/stdc/hmap.c:122-143 | The map with the key bound, count the number of keys; the table doubles exactly when a new key finds more than three keys to a bucket. |
| HashMap.HMap.Remove | src/stdc/hmap.c:157-179 | The map without the key; count is the number of keys. |

## Left out

- Locks, interrupts and memory ordering, except in RwLock: every operation elsewhere is one step, which includes the windows in `vma_resolve` and `futex_wait` where a lock is dropped.
- The i386 page tables, physical frame contents of non-anonymous areas, and the driver callbacks of file, library, pipe and physical areas beyond their offset and rights.
- `VM_UNCACHABLE` and the other area flags that do not affect the properties.
- AddressSpace.Vmsp.Unmap: lengths that are not whole pages, for which the page loop of removing an area does not end properly, are covered only as far as areas go.
- SpaceMemory.Unmap: requires whole pages, and that a range some area takes can be cut right; what the areas become otherwise is in AddressSpace. The page work of areas that are not anonymous is left out.
- SpaceMemory.Protect: requires the same.
- SpaceMemory.Map: requires that the slot granted, if one is, is sound, and an aligned hint; what the areas become otherwise is in AddressSpace.
- SpaceFork.Fork: stacks, heaps and other areas that are not anonymous are copied as areas, not as pages.
- Arena.Heap.constructor: requires an arena that neither starts below 16 nor ends at the top of the address space, where its bound wraps.
- Arena.Heap.Free: requires that the chunk before is smaller than 2 GiB, as any chunk before another is in an arena of less than 2 GiB and 16 bytes (AlwaysFitsIff); otherwise the code takes bytes inside that chunk for its header.
- The `HEAP_CHECK` and `HEAP_PARANO` diagnostics and the heap of several arenas.
- Ext2.Volume.Truncate: requires enough free blocks for the missing ones (with fewer the code stores block 0 and goes on), and blocks of at most 4 KiB (CapacityFits). Groups have fewer than 65536 blocks, as their counters are 16 bits wide.
- Ext2.Volume.GetIndirect: stops when the index block taken holds old entries, which the code goes on to follow. GetBlock, GetSingle and GetDouble do the same.
- Ext2.Volume.GetTriple: stops after replacing the entry. Reading a block succeeds.
- The offset of block numbers on 1 KiB volumes, inode timestamps and directories of ext2. An index block is read when its table is entered and written when the table is done.
- PageCache.BlockFile.Fill: device reads succeed; after a failed read the code's retry stops on an assertion.
- PageCache.BlockFile.Write: requires fewer than 2 GiB in one call, as the count returned is an int.
- Asynchronous block input and output, shrinking files, and files beyond the offsets `block_fetch` accepts.
- PageZones.Pages.PageRange: requires memory below 8 TiB, where page numbers fit a long.
- Futex.Kernel.Wait: a task that blocks was not aborted; nothing in these sources marks a task as aborted.
- Signals, interval timers, `sleep_timer`, processor state and the wall clock.
- `IO_NOBLOCK`, `IO_ATOMIC`, `pipe_erase` and waking waiters of pipes.
- The value of the hash function, its 32 bits, tables too large to double, and `hmp_destroy`.
- Mutexes, condition variables and semaphores, path walking, the loader, drivers, network and formatting.
