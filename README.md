# Incremental compacting allocator and indexed sequence-number heap

This project models two in-place data structures of a small publish/subscribe
protocol stack in Dafny and proves their invariants.

**The incremental compacting block allocator** (`src/zhe-icgcb.c`).

- The arena is an administrative part followed by an array of UNIT-sized cells.
- A block is a header cell `{size, ref}` followed by its payload cells. A block whose `ref` is `URIPOS_INVALID` is free.
- The block list `Blocks` names every allocated block by its tag, its size and its payload cells, in arena order. A lemma that keeps the block list therefore keeps every block's contents.
- Three indices split the cells:
  - `[0, firstfree)` is compacted and fully allocated.
  - `[firstfree, openspace)` mixes allocated and free blocks that await compaction.
  - `openspace` is one open free block that ends at a zero-sized sentinel.
- `check` becomes the ghost predicate `IcgcbLayout.Check`, a recursive walk of the block chain.
- The operations are `init`, `alloc`, `free`, `getsize` and the budgeted collector `gc`.
  - Module `IcgcbLayout` states each one as a function on arena values (`Carve`, `Release`, `Relocate`, `Merge`) and proves its properties there.
  - Module `Icgcb` holds the class `Allocator`. It keeps the administrative fields and an `array<Hdr>` of cells, and its methods update them in place.
  - Each method is proved equal to its function through `View()`.
  - `gc` is specified by `Collect`, which also returns the `move_cb` calls as a list.

**The indexed min-heap of per-peer sequence numbers** (`binheap.c`).

- The class `BinHeap.MinSeqHeap` holds three arrays:
  - `hx`: heap position → peer.
  - `ix`: peer → heap position, or `PEERIDX_INVALID` when the peer is absent.
  - `vs`: peer → sequence number.
- It also holds the size `n`.
- `Valid()` is the back-index bijection.
- Heap order is stated on the keys by position, `Keys()`. The value-level lemmas in the module say what each swap or move of the C code does to that sequence.
- `heapify`, `insert`, `get_min`, `update_seq`, `delete` and `isempty` are methods that work on the arrays in place.
- `delete` is modelled twice: as written (`DeleteAsWritten`) and corrected (`Delete`). See "## Findings".

## Model

| member | source | states |
|---|---|---|
| IcgcbLayout.UnitIsPowerOfTwo | src/zhe-icgcb.c:47-49 | the static assertion `UNIT & -UNIT == UNIT` holds, computed in a 64-bit size_t |
| IcgcbLayout.MaskClearsRemainder | src/zhe-icgcb.c:58-61 | masking with `~(UNIT - 1)` subtracts exactly the remainder modulo UNIT |
| IcgcbLayout.AlignDown | src/zhe-icgcb.c:102 | `x & ~(UNIT - 1)` is the largest multiple of UNIT not above x |
| IcgcbLayout.AlignUp | src/zhe-icgcb.c:58-61 | alignup(size) is the least multiple of UNIT that is at least size, for every size whose `size + UNIT - 1` fits in uripos_t |
| IcgcbLayout.CellsIsQuotient | src/zhe-icgcb.c:81 | the walk's step, counted cell by cell, is `alignup(size) / UNIT` |
| IcgcbLayout.CompactedIsPending | src/zhe-icgcb.c:77-91 | a run that passes check's first loop also passes its second loop, with no free bytes and all its cells in allocated blocks |
| IcgcbLayout.PendingConservation | src/zhe-icgcb.c:84-91 | along the second loop's walk, the allocated blocks' whole cells plus the free blocks' bytes cover the walk exactly |
| IcgcbLayout.CheckedWalk | src/zhe-icgcb.c:77-92 | under check, the walk from cell 0 reaches the open space; all free bytes before it lie after firstfree; the block list splits at firstfree |
| IcgcbLayout.Conservation | src/zhe-icgcb.c:63-97 | under check, the allocated blocks' whole cells plus freespace equal all cells but the sentinel |
| IcgcbLayout.HardCapacity | src/zhe-icgcb.c:142-144 | a request larger than all usable cells meets `freespace < sizeA` in every consistent state, so alloc answers NOSPACE |
| IcgcbLayout.FreespaceWithinArena | src/zhe-icgcb.c:68 | freespace never exceeds the cells below the sentinel |
| IcgcbLayout.LiveBlock | src/zhe-icgcb.c:131-135 | an allocated block has a header of more than UNIT bytes, lies below the open space, and is in the block list between the blocks before and after it |
| IcgcbLayout.Check | src/zhe-icgcb.c:63-97 | defines check: the sentinel, the firstfree and openspace headers, the compacted walk up to firstfree, the mixed walk up to openspace, the open space block ending at the sentinel, and freespace as the free bytes |
| IcgcbLayout.Carve | src/zhe-icgcb.c:148-166 | defines the successful alloc on arena values: the new header, the remainder of the open space block (or the sentinel), freespace, and firstfree when it was openspace |
| IcgcbLayout.Release | src/zhe-icgcb.c:117-126 | defines free on arena values: the header marked free with its size rounded up to whole cells, freespace grown by that size, firstfree lowered to the header when the header lies below it |
| IcgcbLayout.CarveAsComputed | src/zhe-icgcb.c:148-166 | the successful alloc's two branches (the remainder below UNIT or not) compute Carve; with no room for a remainder, the new open space is the sentinel |
| IcgcbLayout.CarveKeepsCheck | src/zhe-icgcb.c:148-168 | a successful alloc keeps check, advances openspace by sizeA / UNIT, makes the block at the old openspace allocated, and appends exactly one block to the block list: tag ref, size UNIT + size, and as payload the cells already there |
| IcgcbLayout.ReleaseKeepsCheck | src/zhe-icgcb.c:117-126 | free keeps check; the freed block is in the block list, and the list loses exactly that block, the others staying in order with their payloads |
| IcgcbLayout.StepShape | src/zhe-icgcb.c:180-182 | while firstfree differs from openspace, the firstfree block is a well-formed free block and the next block `e + e->size / UNIT` lies on the walk up to openspace |
| IcgcbLayout.MovedDown | src/zhe-icgcb.c:187 | memmove down by whole cells: every moved cell holds its source cell, and every other cell is unchanged |
| IcgcbLayout.Relocate | src/zhe-icgcb.c:183-191 | defines the relocation step on arena values: the allocated next block moved down to firstfree, a free header of the old free size after it, firstfree past the moved block |
| IcgcbLayout.RelocateAsComputed | src/zhe-icgcb.c:181-190 | the relocation step as gc computes it (ne, alignup(ne->size) / UNIT, memmove, the new free header, firstfree) is Relocate |
| IcgcbLayout.RelocateMovesContents | src/zhe-icgcb.c:185-190 | relocation copies the allocated block's cells unchanged to firstfree, and the new firstfree is just past them |
| IcgcbLayout.RelocateKeepsCheck | src/zhe-icgcb.c:183-199 | relocation keeps check and the block list, payloads included; the moved block is allocated at the old firstfree; one block fewer lies between firstfree and the open space |
| IcgcbLayout.RelocateMovesBlock | src/zhe-icgcb.c:183-191 | after relocation, the block at the old firstfree has the tag, size and payload the allocated next block had |
| IcgcbLayout.RelocateSkips | src/zhe-icgcb.c:183-191 | after relocation, the walk from cell 0 reaches the end of the moved block's old place, and every cell from there on is unchanged |
| IcgcbLayout.RelocateKeepsAfter | src/zhe-icgcb.c:183-191 | relocation leaves every allocated block after the moved one where it was, with the same tag, size and payload |
| IcgcbLayout.MergeSkips | src/zhe-icgcb.c:192-198 | after a merge, the walk from cell 0 reaches the end of the absorbed free block, and every cell from there on is unchanged |
| IcgcbLayout.MergeKeepsAfter | src/zhe-icgcb.c:192-198 | a merge leaves every allocated block after the absorbed one where it was, with the same tag, size and payload |
| IcgcbLayout.LiveIsListed | src/zhe-icgcb.c:131-135 | the block at an allocated header, with its payload, is in the block list |
| IcgcbLayout.Merge | src/zhe-icgcb.c:192-198 | defines the merge step on arena values: the free next block absorbed into the firstfree block, whose size becomes the sum; when the absorbed block was the open space, the open space starts at firstfree |
| IcgcbLayout.MergeKeepsCheck | src/zhe-icgcb.c:192-199 | merging keeps check and the block list, payloads included, and one block fewer lies between firstfree and the open space |
| Icgcb.IsInitial | src/zhe-icgcb.c:99-113 | defines init's arena: freespace, size, firstfree = openspace = 0, one free block of all of freespace and the sentinel after it |
| Icgcb.InitialIsEmpty | src/zhe-icgcb.c:99-113 | init's arena passes check, has no allocated block, and the open space block holds all of freespace |
| Icgcb.Allocate | src/zhe-icgcb.c:138-170 | defines alloc on arena values: NOSPACE, AGAIN, or Carve with header + 1 |
| Icgcb.AllocateKeepsCheck | src/zhe-icgcb.c:138-170 | alloc: NOSPACE iff freespace < UNIT + alignup(size); AGAIN iff it fits in freespace but not in the open space block; both leave the arena unchanged; OK returns header + 1 with header `{UNIT + size, ref}`, takes sizeA from freespace, moves openspace by sizeA / UNIT or to the sentinel, moves firstfree only when it was openspace; check holds and the block list gains exactly the new block, whose payload is the cells already there |
| Icgcb.AllocThenGetSize | src/zhe-icgcb.c:133-135 | getsize on the block alloc has just returned yields the size requested |
| Icgcb.AgainOnlyWithGarbage | src/zhe-icgcb.c:145-146 | AGAIN is answered only while firstfree differs from openspace, that is while gc has work |
| Icgcb.Step | src/zhe-icgcb.c:181-198 | one turn of gc reports at most one move |
| Icgcb.StepChecks | src/zhe-icgcb.c:181-199 | every turn of gc keeps check |
| Icgcb.StepKeepsBlocks | src/zhe-icgcb.c:181-198 | every turn keeps the block list, every block's payload included, and freespace |
| Icgcb.StepReportsBlocks | src/zhe-icgcb.c:191 | move_cb reports only allocated blocks |
| Icgcb.StepProgress | src/zhe-icgcb.c:181-198 | every turn leaves one block fewer between firstfree and openspace |
| Icgcb.RelocatedIsListed | src/zhe-icgcb.c:183-191 | the block a relocation reports is in the block list |
| Icgcb.StepKeepsBelow | src/zhe-icgcb.c:181-198 | a turn never lowers firstfree, keeps the arena's length, and leaves the compacted cells below firstfree alone |
| Icgcb.StepMovesBlock | src/zhe-icgcb.c:183-191 | a reported move names the allocated next block's tag and the old firstfree + 1, and that block, payload included, is now at the old firstfree, ending at the new firstfree |
| Icgcb.StepPlaces | src/zhe-icgcb.c:181-198 | each allocated block is, after a turn, either where it was with the same tag, size and payload, or the one block the turn moved: reported as `(ref, firstfree + 1)`, found at the old firstfree and below the new one |
| Icgcb.StepKeepsContents | src/zhe-icgcb.c:181-198 | each allocated block is, after a turn, either where it was or at ptr - 1 of a reported move with its tag, with the same size and payload |
| Icgcb.Collect | src/zhe-icgcb.c:180 | one gc call reports at most MAX_BLOCKS moves |
| Icgcb.CollectKeepsCheck | src/zhe-icgcb.c:172-201 | a gc call leaves an arena that passes check |
| Icgcb.CollectKeepsBlocks | src/zhe-icgcb.c:172-201 | a gc call keeps the block list, every block's payload included, and freespace |
| Icgcb.CollectReportsBlocks | src/zhe-icgcb.c:180-191 | every move a gc call reports is of an allocated block |
| Icgcb.CollectKeepsBelow | src/zhe-icgcb.c:172-201 | a gc call never lowers firstfree and leaves the cells below the old firstfree alone |
| Icgcb.StaysBelow | src/zhe-icgcb.c:172-201 | an allocated block that lies wholly below firstfree stays where it is, unchanged, through a gc call |
| Icgcb.CollectKeepsContents | src/zhe-icgcb.c:172-201 | after a gc call, each block allocated before it is either where it was or at ptr - 1 of a reported move with its tag, with the same size and payload: the owner finds its data through move_cb |
| Icgcb.CollectMovesBlocks | src/zhe-icgcb.c:180-191 | every move a gc call reports points, at ptr - 1, at an allocated block with the reported tag, and that block, payload included, is one of the blocks before the call |
| Icgcb.CollectProgress | src/zhe-icgcb.c:180-200 | a gc call never adds blocks between firstfree and openspace, and removes at least one when there is garbage and budget |
| Icgcb.CollectTimes | src/zhe-icgcb.c:172-201 | repeated gc calls keep check |
| Icgcb.RepeatedCollectCompacts | src/zhe-icgcb.c:172-201 | after as many gc calls as there are blocks between firstfree and openspace, firstfree has reached openspace with the block list, payloads included, unchanged |
| Icgcb.Allocator.Init | src/zhe-icgcb.c:99-113 | init: freespace is `size - admin - UNIT` rounded down to UNIT; firstfree = openspace = 0; block 0 is free with all of freespace; the sentinel at freespace / UNIT is `{0, INVALID}`; check holds |
| Icgcb.Allocator.Alloc | src/zhe-icgcb.c:138-170 | the method's result and new arena are Allocate of the old arena, and check holds |
| Icgcb.Allocator.AllocOpenSpace | src/zhe-icgcb.c:147-167 | the successful branch leaves Carve of the old arena and returns the old openspace + 1 |
| Icgcb.Allocator.Free | src/zhe-icgcb.c:115-127 | the new arena is Release of the old one (block freed and rounded up, freespace grown by that size, firstfree := min(firstfree, hdrpos)); check holds |
| Icgcb.Allocator.GetSize | src/zhe-icgcb.c:129-136 | returns the header size minus UNIT; the block at ptr - 1 is in the block list with size UNIT + the result |
| Icgcb.Allocator.MoveCells | src/zhe-icgcb.c:187 | the cells after the copy are MoveDown of the cells before |
| Icgcb.Allocator.CompactStep | src/zhe-icgcb.c:181-199 | one loop body: the new arena, the reported moves and the bytes moved are Step of the old arena; check holds |
| Icgcb.Allocator.Relocation | src/zhe-icgcb.c:183-191 | the new arena is Relocate of the old one; reports `(ref, old firstfree + 1)` and `ne->size` bytes moved |
| Icgcb.Allocator.Merging | src/zhe-icgcb.c:192-198 | the new arena is Merge of the old one |
| Icgcb.Allocator.GcTurn | src/zhe-icgcb.c:180-200 | the run from here is this turn's moves followed by the run from the next state |
| Icgcb.Allocator.Gc | src/zhe-icgcb.c:172-201 | gc's new arena and the list of move_cb calls are Collect of the old arena; check holds |
| BinHeap.Parent | binheap.c:45 | `(i-1)/2` is the parent: i is its first or second child |
| BinHeap.Swapped | binheap.c:27-28 | the exchange of two positions swaps their entries, keeps the others, and keeps the multiset |
| BinHeap.Heap | binheap.c:22-30 | defines heap order on keys by position: no key is below its parent's, the order heapify restores |
| BinHeap.RootIsMinimal | binheap.c:54-58 | in heap order, the key at the root is not above any key |
| BinHeap.SwapDown | binheap.c:23-30 | swapping j with its smaller, strictly smaller child k moves the only disorder down to k |
| BinHeap.RiseUp | binheap.c:45-48 | moving the parent down into the hole moves the only disorder up to the parent |
| BinHeap.DownStop | binheap.c:22 | heapify's loop ends at a position without children, and the heap is then in order |
| BinHeap.Appended | binheap.c:43-44 | appending a key to a heap breaks the order at most above the new position |
| BinHeap.Grown | binheap.c:43-44 | adding an absent peer with its number adds it to the heap's peers and appends its key |
| BinHeap.Refilled | binheap.c:88 | moving the last key into position i disorders the keys at i only, above i if the key is below i's parent and below i otherwise |
| BinHeap.Removed | binheap.c:86-89 | moving the last peer into the deleted peer's position removes exactly that peer, and disorders the keys at that position only |
| BinHeap.RefillCount | binheap.c:88 | the moved peer replaces exactly the deleted one in the multiset of peers |
| BinHeap.HeapPrefix | binheap.c:88 | the corrected delete of the last peer (`--h->n` with nothing moved) keeps heap order: a prefix of a heap is a heap |
| BinHeap.SwappedKeys | binheap.c:27-28 | exchanging two peers in hx exchanges their numbers in the keys by position, and nothing else |
| BinHeap.DroppedLast | binheap.c:88 | `--h->n` drops the last peer's key and keeps the keys of the others; the peers lose exactly that one |
| BinHeap.MinSeqHeap.Valid | binheap.c:28-29 | defines the back index: hx and ix are inverse on the heap's positions and every other peer is marked invalid; the writes at binheap.c:28-29, 46-51 and 88-89 keep it |
| BinHeap.MinSeqHeap.Ordered | binheap.c:54-58 | defines heap order of the peers' numbers by position, under which get_min's root is the minimum |
| BinHeap.MinSeqHeap.Empty | binheap.c:99-102 | an empty heap: no peer present, and the back index is valid; the heap's struct and its initialisation are in binheap.h, which is not part of this model |
| BinHeap.MinSeqHeap.RoomForAbsent | binheap.c:37-44 | when a peer is absent, the heap has a free position for it (`h->n++` stays within MAX_PEERS) |
| BinHeap.MinSeqHeap.Heapify | binheap.c:11-32 | heapify keeps the back index, the multiset of peers and the positions above j0, and restores order when the order was broken only at j0 |
| BinHeap.MinSeqHeap.SiftStep | binheap.c:22-30 | one turn: k < n is the smaller child of j, the right one exactly when it exists and its number is strictly below the left one's; j and k are exchanged iff vs at k is below vs at j, and otherwise nothing changes; order is broken only at k |
| BinHeap.MinSeqHeap.SmallerChild | binheap.c:22-25 | the child compared with j is below n and not above either child; it is the right one exactly when the right child exists and its number is strictly below the left one's |
| BinHeap.MinSeqHeap.Swap | binheap.c:27-29 | the swap with both back-index writes keeps the back index, and the keys are swapped |
| BinHeap.MinSeqHeap.Insert | binheap.c:34-52 | insert of an absent peer: n grows by 1, `vs[peer] == seqbase`, `hx[ix[peer]] == peer`, the peers gain exactly peer, the back index holds, and heap order is kept |
| BinHeap.MinSeqHeap.Extend | binheap.c:43-44 | the number is stored and the heap grows by a hole at the end, with the order broken only above it |
| BinHeap.MinSeqHeap.Rise | binheap.c:45-51 | insert's loop and final write: the peer ends at a position that its index records, the back index holds, and order is restored |
| BinHeap.MinSeqHeap.MoveUp | binheap.c:46-48 | one turn of insert's loop: the parent moves down into the hole with its back index updated, and the keys are swapped |
| BinHeap.MinSeqHeap.Fill | binheap.c:50-51 | the peer fills the hole, its back index is set, and the back index holds |
| BinHeap.MinSeqHeap.GetMin | binheap.c:54-58 | returns `vs[hx[0]]`, which under heap order is not above any number in the heap |
| BinHeap.MinSeqHeap.UpdateSeq | binheap.c:60-71 | an absent peer or a number not above the stored one changes nothing and returns seqbase_if_discarded; otherwise the number is stored, the peers stay the same, order is kept, and the result is the new minimum `vs[hx[0]]` |
| BinHeap.MinSeqHeap.IsEmpty | binheap.c:99-102 | true iff n == 0, iff every peer is marked absent |
| BinHeap.MinSeqHeap.Delete | binheap.c:73-97 | corrected delete: 0 for an absent peer, with nothing changed; 1 for a present one, which becomes absent, n decreases, the peers lose exactly it, position 0 is invalid when the heap empties, the back index holds and heap order is kept |
| BinHeap.MinSeqHeap.Clear | binheap.c:91-94 | deleting the only peer empties the heap and marks position 0 invalid |
| BinHeap.MinSeqHeap.Shrink | binheap.c:86-90 | corrected delete from a heap of several peers: the peer leaves, the back index holds, and order is kept |
| BinHeap.MinSeqHeap.Replace | binheap.c:86-90 | corrected delete of a peer that is not last: the peer becomes absent, n decreases, the peers lose exactly it, the back index holds, and heap order is kept |
| BinHeap.MinSeqHeap.DropLast | binheap.c:86-88 | corrected delete of the last of several peers: the peer becomes absent (no self-move), n decreases, the peers lose exactly it, the back index holds, and order is kept |
| BinHeap.MinSeqHeap.Settle | binheap.c:88-90 | the correction: the moved peer rises when its number is below its new parent's and sinks otherwise, so the back index holds, the peers are those of the filled hole, and order is restored whenever the keys were displaced at the hole only |
| BinHeap.MinSeqHeap.Vacate | binheap.c:86-88 | the peer is marked absent and n decreases; its position is a hole for the last peer, with the keys disordered there only |
| BinHeap.MinSeqHeap.Detach | binheap.c:86-88 | marking the peer absent and decreasing n: the cells below the new n are unchanged, and the last peer is left as the one to move |
| BinHeap.MinSeqHeap.Sink | binheap.c:88-90 | the moved peer fills the hole and heapify sinks it; order is restored when its number is not below the new parent's |
| BinHeap.MinSeqHeap.OnlyAt | binheap.c:85 | a peer in the heap is at exactly one position |
| BinHeap.MinSeqHeap.AbsentIsInvalid | binheap.c:76-81 | in both directions, a peer is marked absent iff it is at no position of the heap; the debug scan at lines 79-80 checks one direction |
| BinHeap.MinSeqHeap.DeleteAsWritten | binheap.c:73-97 | delete as written: absent peer gives 0 and no change; the last of several peers is left with `ix[peer] == n`, which breaks the back index; deleting the only peer returns 1 and leaves position 0 invalid and the peer absent; otherwise as Delete, with order kept when the moved number is not below its new parent's |
| BinHeap.MinSeqHeap.SinkAsWritten | binheap.c:86-90 | as-written delete of a peer that is not last: the back index holds, the peers lose exactly it, the positions above it keep their peers, and order is kept under the extra hypothesis |
| BinHeap.MinSeqHeap.SelfMoveAsWritten | binheap.c:86-90 | as-written delete of the last of several peers: n decreases, hx is unchanged, and `ix[peer] == n`, so Valid() fails |
| BinHeap.DeleteLastCounterexample | binheap.c:86-89 | on numbers [5, 7], deleting peer 1 returns 1 but leaves `ix[1] == 1 == n` |
| BinHeap.DeleteUnorderedCounterexample | binheap.c:88-90 | on the ordered heap [1, 10, 2, 11, 12, 3], deleting peer 3 leaves a valid heap that is out of order |
| BinHeap.LeftAbove | binheap.c:88-90 | the keys left in that example have peer 5 (number 3) below position 1 (number 10) |

## Left out

- `seq_lt` and `seq_le` are modelled as `<` and `<=` on naturals. The wrap-around sequence comparison is defined in `zeno-int.h`, which is not part of this model.
- The heap's struct and its initialisation are declared in `binheap.h`, which is not part of this model. `Empty` builds the empty heap that isempty reports, with every peer marked absent.
- `PEERIDX_INVALID` and `MAX_PEERS` are parameters: the `invalid` field (at least the array length) and the array length.
- The heap's `peeridx_t` width is not modelled. Positions are unbounded naturals, so heapify's `j < n/2` guard against overflow (binheap.c:14-22) is modelled as a loop test with nothing to overflow.
- The `NDEBUG` scans in insert and delete, and the `assert`s in get_min and update_seq, become preconditions: `Valid()`, an absent peer for Insert, and `n > 0` for GetMin.
- `UNIT` and the administrative offset are the constants 4 and 12. The struct layout is in `zhe-icgcb.h`, which is not part of this model. The static assertions of src/zhe-icgcb.c:47-56 hold for them.
- Pointers are cell indices. The payload pointer is the header's index plus one.
- Icgcb.Allocator.Free: requires the payload of an allocated block, that is a pointer that alloc returned (or gc's move_cb reported) and that was not freed since. That is the caller's obligation. The source asserts only that the pointer lies in the arena and does not detect a violation: freeing a payload cell that reads like a header overwrites another block's contents, and check may still pass. The model does not cover such a call.
- Icgcb.Allocator.GetSize: requires the payload of an allocated block, for the same reason as Free. The source's assertions on `ref` and `size` also accept a payload cell that merely reads like an allocated header; the model does not cover such a call.
- `memmove` copies whole cells. The padding bytes past `size` in the last cell are copied too.
- Payload bytes are carried as cells and never interpreted. The source's init does not write them; the model's Init fills them with `{0, 0}`.
- `move_cb` and its `arg` become the returned list of `Move(ref, ptr)` events, in call order.
- The `URIPOS_MAX <= MAX_BYTES` branch of gc is not modelled; only the `bytes < MAX_BYTES` test is.
- gc's `bytes` counter is 16-bit and is modelled modulo 0x10000. Every other uripos_t quantity stays below `URIPOS_INVALID` by the bound that init and `Check` keep on the arena size.
- gc's `blocks++` in the loop test is modelled as an increment per turn. The extra increment on the failing test is not observable.
- Check's `zhe_assert` calls are the predicate itself; an assertion failure is not modelled.

## Findings

| source | as written | input that shows it | evidently intended | confidence | as-written member | corrected member |
|---|---|---|---|---|---|---|
| binheap.c:86-89 | when the deleted peer is the last of several, `h->hx[i] = h->hx[--h->n]` moves it onto itself and `h->ix[h->hx[i]].i = i` writes its own position back, undoing line 86 | peers 0 and 1 with numbers 5 and 7 at positions 0 and 1; delete peer 1: returns 1, n == 1, `ix[1] == 1` | the peer is marked absent (`ix[peer].i == PEERIDX_INVALID`), so that a later insert of it is accepted and a later delete returns 0 | high (not executed) | BinHeap.MinSeqHeap.DeleteAsWritten, BinHeap.DeleteLastCounterexample | BinHeap.MinSeqHeap.Delete, BinHeap.MinSeqHeap.DropLast |
| binheap.c:88-90 | the last peer moved into the hole is only sifted down by heapify, even when its number is below the new parent's | heap of numbers [1, 10, 2, 11, 12, 3], peer p at position p; delete peer 3: peer 5 (number 3) sits below position 1 (number 10) | the moved peer rises when it is below its parent and sinks otherwise, so heap order is kept | high (not executed) | BinHeap.MinSeqHeap.DeleteAsWritten, BinHeap.DeleteUnorderedCounterexample | BinHeap.MinSeqHeap.Delete, BinHeap.MinSeqHeap.Settle |
