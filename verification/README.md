# Verification of the kernel's heap, paging, scheduler, formatter and screen

This project models a small i386 kernel and proves what its parts do. It models the code as it is written, with its
branches, constants and 32-bit arithmetic, and repairs nothing.

**Heap** (`Memory`, `SortedArray`, `Blocks`, `HeapSpec`, `HeapOrder`, `HeapAlloc`, `HeapFree`, `HeapMoves`, `Heap`,
`HeapRuns`, `HeapExamples`). Memory is 4 GB of bytes. Headers and footers are little-endian words in it, written through `Memory.Store`.
`Heap.VmHeap` runs `alloc` and `free` on that memory, on the index of holes and on the pages, and carries a ghost list
of blocks. The invariant `HeapSpec.Inv` says that the blocks tile the heap without gap or overlap, that no two holes are
adjacent, that every header, and every footer of a live block, agrees with the list, and that the index holds exactly the
holes, each once. Several lines of heap.c do not keep it for every input. For each of them there is a check that a caller
could make before the call, a proof that the property is kept if and only if the check holds, and in `HeapExamples` a
concrete sound heap on which the check fails:

- `CarveOk`: an aligned request needs at least 20 bytes in front of the block and either none or at least 20 behind it
  (heap.c:288-338). The split test comes before the alignment.
- `GrowOk`: the new room of an expansion goes to the highest hole, which is right if that hole ends the heap or there is
  no hole (heap.c:241-276).
- `LeftOk`: the footer of a hole on the left names that hole (heap.c:372-379). It is always so until a release absorbs a
  hole on its right, because the footer of the merged hole is not rewritten (heap.c:381-394).
- `EndOk`: when the freed room reaches the end of the heap it starts low enough for the contraction, which rounds with the
  mask 0x1000 and so cuts to the minimum size or to the unrounded length (heap.c:188-196).
- `AllocOrderOk` and `FreeOrderOk`: the size to which an indexed hole shrinks or grows in place still stands in line with
  the other holes (heap.c:294-306, 372-384), so that the first fit stays the best fit.
- `BackingOk`: no page that the heap gains will get frame 0, which the paging code takes for no frame (paging.c:93-120).

`AllocOk` and `FreeOk` combine the first four for whole calls, and each is proved to be exactly what a whole call needs, with one
corner of free (`CutClean`) that ends well by accident. A step of a run is defined by what the code writes in a state
where its check holds. That the next state is sound is proved from this, and so are refinement of an abstract allocator,
the survival of every live byte, the order of the index and the backing of the heap by page frames, for all runs from the
heap that init_heap leaves on (`HeapRuns.StartHeap`).

**Frames and page tables** (`Paging`, `PagingRuns`, `HeapPages`, `Boot`, `Kmalloc`). `Paging.Pager` holds the bitmap of
frames, the page tables and the placement address. `Boot` runs the three loops of init_paging.

**Threads** (`Scheduler`, `Threads`). The ready queue is a linked list that follows a sequence; a context switch works on
registers and on words in memory.

**Formatter and screen** (`Number`, `Format`, `Screen`). Printing against reading back, a format against what it denotes,
and the 80x25 cells against a page of endless paper.

Where the code and its comments disagree, the model follows the code:

- free_frame passes a frame number where an address is expected, so it clears the bit of another frame (paging.c:118);
  a released frame is never handed out again, and the bit of frame 0 is cleared instead. A page that is then given
  frame 0 counts as a page without a frame.
- remove_sorted_array copies the slot behind the contents (sorted_array.c:132-133); the model asks for one readable slot
  behind the capacity.
- init_heap rounds the start past the next page boundary even when it lies on one (heap.c:118-122), and so do expand
  (heap.c:154-158) and kmalloc (kmalloc.c:133-135).
- The search after a contraction looks for the block behind the released one, which is never in the index
  (heap.c:407-413).
- The sizes of indexed holes change in place, so the index does not stay ordered and the smallest hole is not always
  found. `HeapRuns.RunOrdered` tells for all runs up to where it does, and `HeapRuns.RunBestFit` what that is good for.
- expand hands the read-only flag of the heap to alloc_frame as is_writeable (heap.c:167, heap.h:40, paging.c:91), so the
  new pages are writeable exactly if the heap is marked read-only.
- contract does not align its length to a page boundary (heap.c:188-192); `HeapSpec.ContractRounds` tells when it does.
- The sum of length and request, its rounding and the limit check of expand are made in 32 bits (heap.c:155-161, 238).
- A star in a format takes its argument but stays the next character to be read (vsprintf.c:123-141).
- The flag 0 is not ignored when a precision is given (vsprintf.c:45-76), unlike in section 7.21.6.1 of the C11 standard.

## Model

| member | source | states |
|---|---|---|
| SortedArrays.SortedArray.Place | sorted_array.c:50-61 | The index takes over the given memory, cleared over its capacity and nowhere else, and starts empty. |
| SortedArrays.SortedArray.Insert | sorted_array.c:80-104 | Fails exactly at capacity, leaving the contents alone; otherwise the contents are the old ones with the element in front of the first that does not compare below it. Nothing behind the capacity is written. |
| SortedArrays.SortedArray.Remove | sorted_array.c:127-137 | The contents lose exactly the element at that index, although the last step copies the slot behind the contents; nothing behind the capacity is written. |
| SortedArrays.SortedArray.Lookup | sorted_array.c:114-118 | Returns the element of the contents at that index. |
| SortedArrays.InsertKeepsOrder | sorted_array.c:87-103 | With a comparison that agrees with a key, insertion keeps the order by that key and puts the new element in front of its equals. |
| SortedArrays.InsertThenRemove | sorted_array.c:80-137 | Removal at the place of insertion gives the old contents back; insertion adds one element to the multiset. |
| SortedArrays.RemoveKeepsOrder | sorted_array.c:131-136 | Removal keeps the order and takes one element out of the multiset. |
| SortedArrays.SizeCmpCorrect | heap.c:67-70 | The unsigned difference read as a signed int tells whether the first size is smaller if and only if it is at most 2^31 below or less than 2^31 above the second; below 2^31 it is the exact difference. |
| Heap.VmHeap.FindSmallestHole | heap.c:21-57 | Returns -1 exactly when no entry of the index passes the fit test, signed with alignment and unsigned without; otherwise the first entry that passes. Needs no order of the index. |
| HeapAlloc.FirstFitIsBest | heap.c:25-56 | If the index is ordered by size, the hole found is of least size among all holes that pass the test. |
| HeapSpec.FitsMeaning | heap.c:38-41 | With alignment and a request below 2^31 the test means that the hole holds the request and the offset; from 2^31 on it means that the hole and what the request lacks to 2^32 together reach the offset, which every hole does except for requests within a page of 2^32. |
| HeapSpec.FitsInside | heap.c:30-41 | Below 2^31, what is carved from a hole that passes the test never reaches past the hole, and its payload starts inside it, even when the pieces beside the block are too short. |
| HeapSpec.OffsetIsLead | heap.c:30-38 | The offset the search subtracts equals the distance by which the carving moves the block if and only if the hole starts low enough in its page for a header. |
| HeapOrder.ResizeInPlace | heap.c:271-297 | When one entry of an ordered index changes its size in place, the order survives if and only if the new size stands in line with the old sizes of all other entries. |
| HeapOrder.CarveOrder | heap.c:282-338 | After a carving the index is ordered if and only if it is without the hole behind the block, so only the shrinking of an entry in place can lose the order. |
| HeapMoves.AllocOrder | heap.c:224-342 | From what alloc writes, through every expansion: an ordered index is ordered afterwards if and only if AllocOrderOk held before the call. Without alignment it always holds; with it the piece left in front of the block must stand in line with the other holes. The grown hole is the one carved, so the expansion itself costs no order. |
| HeapMoves.FreeOrderExact | heap.c:353-420 | From what free writes: an ordered index is ordered afterwards if and only if FreeOrderOk held before the call. It always holds for a release that does not merge to the left; otherwise the length of the merged and cut hole must stand in line with the holes that remain. |
| Heap.VmHeap.InitHeap | heap.c:106-141 | The heap starts 0x81000 bytes above the start given and is one hole with a header of three words and no footer; tags, index and block list agree. |
| Heap.VmHeap.Expand | heap.c:149-173 | Fails for a length not above the old one, beyond the limit, or when frames run out. Otherwise the end moves to the next page boundary strictly above the length, and every page from the old end to the new one has gone through alloc_frame, in order: those without a frame are present, open to user code exactly if su is not set, and writeable exactly if ro is set; no other entry changed. |
| Heap.VmHeap.Contract | heap.c:183-210 | A length below 0x70000, or one whose bit 12 is set, gives 0x70000; every other length is left as it is, on a page boundary or not. The heap ends there, and exactly the pages above the one it now ends in have gone through free_frame, from the top down. |
| HeapSpec.ContractRounds | heap.c:188-196 | The comment asks for the next page boundary. The code gives that, kept at the minimum, if and only if the length is at most the minimum or a multiple of 0x2000. |
| HeapSpec.ExpandChecksRight | heap.c:150-161 | From the request to the limit check three 32-bit steps can wrap: the sum with the old length (heap.c:238), the rounding and the sum with the start. The two assertions pass exactly when the grown heap stays within its limit, if and only if the grown heap ends below 2^32 or the first sum wraps; in the family that is left they pass and should not. |
| HeapPages.TakenGrows | heap.c:164-169 | The frame allocations of an expansion keep one owner for every frame, keep the bitmap exact if it was, touch no page outside, and back every new page if and only if frame 0 was taken or the pages had frames already. |
| HeapPages.GivenReleases | heap.c:200-204 | The releases of a contraction take the frames of exactly the pages above the new end and keep one owner for every frame; of all bits only that of frame 0 is cleared. |
| Heap.VmHeap.SplitTest | heap.c:288-291 | The block takes the whole hole if less than 20 bytes would be left over, and is 20 bytes longer than the request otherwise; payload size and block size stay 20 apart. |
| Heap.VmHeap.CarveFront | heap.c:294-310 | For an aligned request the hole becomes the piece below the header that ends at the page boundary and stays in the index; otherwise it leaves the index and memory is as before. |
| Heap.VmHeap.PlaceBlock | heap.c:313-321 | The block is 20 bytes longer than the payload. Its first three words are 0x123890AB, 0 and its length, its last two 0xBA098321 and its address, and nothing outside it is written. |
| Heap.VmHeap.PlaceRemnant | heap.c:324-338 | If anything is left it becomes a hole of the index with both tags; fails only when the index is full. |
| HeapSpec.PiecesPartition | heap.c:288-338 | Leading hole, block and trailing hole partition the chosen hole exactly, with no two holes side by side. |
| HeapSpec.Given | heap.c:288-341 | The block handed out is at least as long as asked with its tags, and its payload is a multiple of 0x1000 when alignment is asked for. |
| HeapSpec.CarveBreaks | heap.c:288-338 | When the check on the chosen hole fails (fewer than 20 bytes in front, or between 1 and 19 behind), no reading of what is left behind is a sound heap with the new block. |
| HeapSpec.CarveKeeps | heap.c:282-341 | When the check holds, the tags written and the change of the index leave a sound heap with exactly one live block more. |
| Heap.VmHeap.Carve | heap.c:282-341 | A sound heap is sound afterwards, with the block at the returned address added, if and only if the check on the chosen hole holds. Sound or not, what is handed out lies inside the heap, and a panic means a full index. |
| Heap.VmHeap.EndmostHole | heap.c:241-254 | The highest address in the index, or -1 exactly when the index is empty. |
| Heap.VmHeap.UseNewRoom | heap.c:257-276 | The new room goes to the highest hole of the index, wherever that hole ends, or becomes a hole of its own when there is none; fails only when the index is full. |
| HeapSpec.GrowBreaks | heap.c:269-276 | When the last block is live and there is a hole somewhere, giving the room to that hole leaves nothing that reads as a sound heap with the same live blocks. |
| HeapSpec.GrowLastHole | heap.c:269-276 | When the hole is the last block, the heap is sound afterwards and no byte of a live block has changed. |
| HeapSpec.GrowNewHole | heap.c:257-267 | When there is no hole at all, the heap is sound afterwards with the room as its last hole. |
| Heap.VmHeap.Grow | heap.c:233-276 | The end moves up by the request rounded past the next page boundary. The result of an expansion is a sound heap with the same live blocks if and only if the last block was a hole or there was no hole. |
| HeapAlloc.GrowingHelps | heap.c:229-280 | After one expansion the highest hole holds more than the request with its tags; after it a plain request fits, and after another one an aligned request does. |
| HeapAlloc.AllocOkGrown | heap.c:229-280 | An expansion at the right place neither breaks nor mends the promise AllocOk made before the call. |
| Heap.VmHeap.Alloc | heap.c:224-342 | The recursion ends after at most two expansions, one without alignment, none when a hole fits. A sound heap is sound afterwards, with one new block of at least the size at the returned address and every other live block kept, if and only if AllocOk holds before the call; then no other live byte is touched, and an ordered index stays ordered if and only if AllocOrderOk holds. In any case the request lies inside the heap. When a hole fits, only a full index makes it panic; otherwise the limit or lack of frames may. |
| HeapMoves.AllocEnd | heap.c:229-280 | How far a call expands the heap is told before it: not at all when a hole fits, and else until the last hole holds the request with its offset, in one step or two. |
| Heap.VmHeap.MergeLeft | heap.c:367-379 | The block is joined to the hole the footer on its left names; which header is used is told for right and wrong footers alike. |
| Heap.VmHeap.MergeRight | heap.c:381-394 | A hole on the right is absorbed and leaves the index, while its footer keeps the old header; fails only if what lies past the end of the heap looks like a hole. |
| Heap.VmHeap.IndexOf | heap.c:389-391 | Where an address is in the index; the size exactly when it is not there. |
| HeapFree.FreedFooter | heap.c:381-394 | After absorbing a hole to the right away from the end of the heap, the footer of the merged hole does not name it; after any other merge it does. |
| HeapFree.SettlePlace | heap.c:396-413 | The freed room reaches the end exactly when its footer does, and the second search of the index can never find what it looks for. |
| Heap.VmHeap.Settle | heap.c:396-415 | Contracts exactly when the freed room reaches the end, and then cuts the last hole to what lies below the minimum size, with a footer; the index is as before. |
| HeapSpec.EndBreaks | heap.c:396-415 | When the last hole starts too high for its tags to fit under the contracted end, no reading of the result is a sound heap. |
| HeapSpec.LeftBreaks | heap.c:372-379 | When the footer of the hole to the left does not name it, no reading of the result is a sound heap without the released block. |
| HeapFree.FreeKeepsInv | heap.c:353-420 | When both checks hold, the merges, the contraction and the change of the index leave a sound heap; the footers of all holes stay right exactly when no stale footer is left. |
| HeapFree.FreeResult | heap.c:353-420 | The result is a sound heap without the block if and only if FreeOk holds or the contraction happens to cut off exactly the released block (CutClean); with FreeOk every other live byte is untouched. |
| HeapFree.CornerBreaks | heap.c:367-415 | With a wrong footer on the left and the end of the heap reached, no reading of the result is sound except after that cut. |
| HeapFree.CutCleanSound | heap.c:367-415 | After that cut the hole on the left ends the heap and the heap is sound. |
| Heap.VmHeap.Free | heap.c:353-420 | A null pointer changes nothing. Otherwise the result is a sound heap without the block exactly as FreeResult tells, and safe or not the heap ends where contract puts it: unchanged when the freed room does not reach the end, else at the minimum, or where the room starts if that is above the minimum in an even page. An ordered index stays ordered if and only if FreeOrderOk holds, and a panic comes only from what lies past the end or from a full index; the assertions on the magic numbers never fail. |
| HeapFree.FreedPlace | heap.c:367-406 | With the right footer on the left the merged hole starts at the left neighbour, or at the block when that is live, and the new end of the heap leaves room for its tags if and only if EndOk holds. |
| HeapMoves.AllocExact | heap.c:224-342 | From what alloc writes alone, through every expansion: the result keeps all live blocks and adds one of at least the size at the returned address if and only if AllocOk held before the call. |
| HeapMoves.SwollenBreaks | heap.c:241-280 | When the room has gone to a hole below a live block, whatever is then carved overlaps that hole or a live block above it. |
| HeapMoves.AllocWorkKeeps | heap.c:224-342 | With the check made before the call, the list of blocks kept up along with the writes is sound. |
| HeapMoves.FreeMovesKeep | heap.c:353-420 | From what free writes and the check made before the call: the list of blocks kept up along with the writes is sound. |
| HeapRuns.StepSane | heap.c:224-420 | One call of alloc or free whose check holds, or one write of an owner into a payload, leads from a sound heap with one owner for every frame to another; soundness afterwards is derived, not part of the step. |
| HeapRuns.RunSane | heap.c:224-420 | After any sequence of such calls the blocks tile the heap, no two holes are adjacent, the tags agree with them, the index holds exactly the holes, each once, and every frame has one owner. |
| HeapRuns.StepRefines | heap.c:224-420 | Every step is a step of an allocator that maps live pointers to capacities: alloc adds one new pointer with at least the size asked, free removes one. |
| HeapRuns.RunRefines | heap.c:224-420 | Every run of the heap is a run of that allocator, and live payloads never overlap. |
| HeapRuns.RunKeepsBytes | heap.c:224-420 | A byte of a live payload keeps its value over any part of a run in which its block is not released and nobody writes it: no expansion, split, merge or contraction writes it or cuts it off. |
| HeapRuns.PayloadKeepsInv | heap.c:313-341 | Whatever an owner writes into the payload of a live block, the heap stays sound and every other live block unchanged. |
| HeapRuns.StartHeap | heap.c:106-141 | The heap that init_heap leaves is a first state for every statement about runs: sane, with an ordered index, right footers and no live block, and backed if and only if the pages between its start and its end hold frames. |
| HeapRuns.StepBacked | heap.c:149-210 | One call keeps every page of the heap backed if and only if BackingOk held before it: an expansion must find frame 0 taken or the new pages backed already; a contraction that makes a heap below the minimum longer must find the gained pages backed. |
| HeapRuns.RunBacked | heap.c:149-210 | Over any run every page of the heap holds a frame as long as that check holds before each call, and the first call before which it fails loses it. |
| HeapRuns.ReleaseThenGrow | heap.c:183-205 | A release that gives up pages, followed by an allocation that grows over them, always ends in a heap with a page that counts as having no frame. |
| HeapRuns.StepOrdered | heap.c:224-420 | One call on an ordered index leaves it ordered if and only if its order check held before it; writes of owners never matter. |
| HeapRuns.RunOrdered | heap.c:224-420 | Over any run the index stays ordered by size as long as the order checks hold, and loses its order at the first call before which one fails. |
| HeapRuns.RunBestFit | heap.c:25-56 | Up to there every hole the search finds, at any point of the run and for any request, is of least size among all holes that pass the test. |
| HeapRuns.HeapTranslationInjective | paging.c:93-120 | In a backed heap no two addresses have the same physical address. |
| HeapRuns.SealedFree | heap.c:372-379 | With every hole footer right, the only thing left to check before a release is where the last hole starts. |
| HeapRuns.RunSealed | heap.c:381-394 | The footers stay right over every run in which no release absorbs a hole on its right away from the end of the heap. |
| HeapRuns.AllocThenFree | heap.c:282-415 | An unaligned allocation that needs no expansion, released at once, gives back the list of blocks and the holes of the index, up to the contraction of the last hole. |
| HeapRuns.FreeUndoesAlloc | heap.c:367-415 | After such an allocation the release is safe if and only if the hole does not end the heap or starts low enough for the contraction. |
| HeapRuns.PerformAlloc | heap.c:224-342 | The code of alloc on the heap object takes exactly such a step. |
| HeapRuns.PerformFree | heap.c:353-420 | The code of free on the heap object takes exactly such a step. |
| HeapExamples.EveryListIsAHeap | heap.c:106-141 | Every list that tiles an area without adjacent holes, with any order of its holes in the index, is the list of a sound heap with right footers: memory that carries its tags is built. |
| HeapExamples.FrontPieceTooShort | heap.c:294-306 | A sound heap whose only hole, 16 bytes below the end of a page, passes the search for an aligned request and fails the check: the piece in front would have 4 bytes. |
| HeapExamples.OffsetsDisagree | heap.c:30-38 | A sound heap whose only hole, 8 bytes below the end of a page, is searched as if the block moved up 4092 bytes and would be carved 4 bytes down, over the live block before it. |
| HeapExamples.RearPieceTooShort | heap.c:288-338 | A sound heap in which an aligned request fails the check because ten bytes would be left behind the block: the split test comes before the alignment. |
| HeapExamples.RoomGoesToTheWrongHole | heap.c:241-276 | A sound heap of a hole and a live block at its end, and a request that no hole fits: AllocOk fails, because the room would go to the hole below. |
| HeapExamples.LimitCheckWraps | heap.c:160-161 | For the kernel heap the assertions of expand pass for a growth of 2^30 bytes, whose end is far beyond the limit. |
| HeapExamples.LengthRoundsToNothing | heap.c:155-161 | A length close to 2^32 rounds to zero and passes both assertions, so the end of the heap would be set to its start. |
| HeapExamples.HoleCutToNothing | heap.c:188-207 | A sound heap and a release that fails the check: the freed room starts on an even page above the minimum, and the heap is cut to end where it starts. |
| HeapExamples.LiveBlockCutOff | heap.c:188-207 | A sound heap and a release that fails the check: the freed room starts on an odd page above the minimum, and the heap is cut through the live block before it. |
| HeapExamples.EndOffThePage | heap.c:188-207 | A sound heap and a release that fails the check: the freed room starts at offset 0x72010, and the heap ends there, off every page boundary. |
| HeapExamples.StaleFooterHurts | heap.c:372-394 | From every sound heap with right footers, a release that absorbs a hole on its right away from the end leaves a sound heap in which the release of the live block behind the merged hole fails its check. |
| HeapExamples.StaleFooterLeft | heap.c:372-394 | A sound heap in memory in which the footer of a merged hole names the header of the hole it absorbed; LeftOk and FreeOk fail for the live block behind it, and no lucky cut saves the release. |
| HeapExamples.CutJustRight | heap.c:367-415 | A sound heap with such a footer in which FreeOk fails and the contraction cuts off exactly the released block, so the corner CutClean does occur. |
| HeapExamples.OrderLostByRelease | heap.c:372-384 | A sound heap with an ordered index and a release that is safe and fails the order check: the hole on the left grows past the other one where it stands. |
| HeapExamples.OrderLostByAlignment | heap.c:294-306 | A sound heap with an ordered index and an aligned request that is safe and fails the order check: the larger hole shrinks below the smaller one where it stands. |
| HeapExamples.BackingLost | heap.c:164-169 | A sane, fully backed kernel with frame 0 marked free, and an allocation that keeps the heap sound and fails the backing check. |
| Kmalloc.KmallocPlacement | kmalloc.c:131-160 | Without a heap the placement address advances by the length, after rounding up past the next page boundary if asked; the address is its own physical address and the memory is zeroed if asked. |
| Kmalloc.KmallocHeap | kmalloc.c:144-160 | With a heap the result lies in the heap, the physical address is the translation of its first byte and the bytes are zero if asked, whatever alloc did; when alloc keeps its promise the result is a new payload, and zeroing it keeps the heap sound and every other live block as it was. |
| Paging.BitUpdate | paging.c:31-44 | Setting or clearing one bit of a word changes that bit and no other. |
| Paging.BitWorth | paging.c:26-45 | Bit j is worth 2^j: setting it adds that much to the word if it was clear, clearing it takes that much away if it was set. |
| Paging.Pager.SetFrame | paging.c:26-32 | Exactly the bit of the frame of that address is set. |
| Paging.Pager.ClearFrame | paging.c:39-45 | Exactly the bit of the frame of that address is cleared. |
| Paging.Pager.FirstFrame | paging.c:67-84 | The least unused frame; -1 exactly when every frame is used. |
| Paging.Pager.AllocFrame | paging.c:93-107 | A page with a frame is left alone; another one gets the least unused frame, whose bit is set, and no other page changes. Fails exactly when a frame is needed and none is left. |
| Paging.Pager.FreeFrame | paging.c:114-120 | The page loses its frame and the bit cleared is the one of the frame number divided by 0x1000; a page without a frame is left alone. |
| Paging.Pager.GetPage | paging.c:191-206 | Finds the page if its table exists or may be made; making a table takes cleared memory from the placement address, changes the entry of no page and leaves one table less to be made. |
| Paging.TranslateInjective | paging.h:8-16 | When no two pages hold the same frame, no two addresses on pages with frames have the same physical address. |
| Paging.AllocKeepsOwned | paging.c:93-107 | Handing out an unused frame keeps one owner for every frame, and keeps the bitmap exact if it was. |
| Paging.FreeOwnership | paging.c:114-120 | A release keeps one owner for every frame if and only if the bit it clears belongs to no other page, and it always leaves a frame marked used that no page holds. |
| Paging.NewTableHoldsNothing | paging.c:198-202 | A new table changes the entry of no page. |
| PagingRuns.RunInjective | paging.c:93-120 | Over any run of alloc_frame and free_frame on any pages, frames keep one owner and translation stays injective, as long as each release passes that check. |
| PagingRuns.SmallMachineReleases | paging.c:130-133 | With the 4096 frames the kernel assumes every release passes it. |
| PagingRuns.ReleasedFramesAreLost | paging.c:114-120 | There a frame that no page holds any more stays marked used and is never handed out again. |
| PagingRuns.RunExact | paging.c:93-120 | There bitmap and page entries agree after a run if and only if they agreed before it and no release in it found a frame to release. |
| Boot.MapHeapTables | paging.c:139-141 | The first loop makes the tables of the initial heap and gives no page a frame. |
| Boot.MapPage | paging.c:148-151 | One round gives page k frame k, and either one table less is missing and the bound moves, or the bound stays. |
| Boot.MapIdentity | paging.c:146-151 | The loop ends although get_page moves its bound, and leaves page k with frame k for every page below the final placement address; it fails exactly when that takes more frames than there are. |
| Boot.MapHeapFrames | paging.c:153-155 | The third loop backs every page of the initial heap; it fails exactly when the frames run out. |
| Boot.InitPaging | paging.c:133-155 | The three loops together succeed exactly when there are frames for the used memory and the initial heap. |
| Boot.BootMapMeaning | paging.c:133-155 | Afterwards pages and bitmap agree exactly, the 256 pages from 0xC0000000 on are backed, every address below the placement address translates to itself, so the physical addresses given out before are right, and all these pages are present, not writeable and open to user code. |
| Scheduler.Scheduler.constructor | scheduler.c:13-20 | The initial thread runs and nobody waits. |
| Scheduler.Scheduler.ThreadIsReady | scheduler.c:27-51 | A new node of the thread is appended to the waiting ones, which stay as they were; the list stays free of cycles and repeats. |
| Scheduler.Scheduler.ThreadNotReady | scheduler.c:58-84 | If i is the first place where a node of the thread waits, the queue gets one shorter, the nodes before i stay where they are and those behind it move up by one; without such a node nothing changes. |
| Scheduler.OneNodeLess | scheduler.c:58-84 | The thread loses one waiting node if it has any, and no other thread loses one. |
| Scheduler.NodesAfter | scheduler.c:27-114 | The number of nodes of a thread, the running one counted, goes up by one when it is made ready, down by one when it is removed while a node of it waits, and is never changed by schedule. |
| Scheduler.RemovedStaysAway | scheduler.c:27-114 | A thread that waits with one node and is removed does not run again, whatever follows, until it is made ready again. |
| Scheduler.Scheduler.Schedule | scheduler.c:92-114 | The running node goes to the end and the first waiting node runs, whatever the next pointer of the running node held; nothing changes when nobody waits. |
| Scheduler.RingTurns | scheduler.c:92-114 | schedule turns the ring of nodes by one place and loses and adds nobody. |
| Scheduler.WaitsItsTurn | scheduler.c:27-114 | The node at position k runs after exactly k + 1 calls of schedule, whatever is made ready in between. |
| Scheduler.RunsInTime | scheduler.c:27-114 | It runs within k + 1 calls whatever is made ready and removed in between, as long as that is not its own thread. |
| Scheduler.TurnedRing | scheduler.c:92-114 | After m calls alone the ring has turned m places. |
| Scheduler.RoundIsFair | scheduler.c:92-114 | With n nodes and nothing else going on, n calls run each node once, in order, and end where they began. |
| Threads.Cpu.SwitchThread | thread_asm.s:6-35 | The words at 0, 4, 8, 12, 16 and 20 of the running structure are esp, ebp, ebx, esi, edi and the flags; those of the next thread are loaded from the same places of its own, execution goes on at the word its stack pointer points at, and besides that structure memory changes only in the word just below each of the two stack pointers. The next thread may be the running one. |
| Threads.Cpu.CreateThread | thread.c:47-67 | The top of the new stack holds function, thread_exit and argument; the new structure holds that stack pointer, zeros, the flags 0x200 and the next identifier; nothing outside the memory of the new thread changes. |
| Threads.KeptWhileAway | thread_asm.s:6-35 | The saved context and the stack of a thread stay as they are over any run in which it does not run, whatever the others do in their own memory. |
| Threads.ResumedAsLeft | thread_asm.s:6-35 | Over any run, a thread resumed goes on with the registers it had at its last switch, returns to where it called from and finds its stack as it left it. |
| Threads.SwitchedToItself | thread_asm.s:6-35 | A thread switched to itself returns at once, with its registers and its stack as they were. |
| Threads.StartsInItsFunction | thread.c:47-67 | Over any run, the first dispatch of a created thread enters its function with interrupts enabled, the argument as first stack argument and thread_exit as return address. |
| Number.DigitCount | vsprintf.c:55-59 | A number below 2^b has at most b digits in any base, so 32 characters of tmp are enough. |
| Number.FillDigits | vsprintf.c:55-59 | The digits end up in tmp from the lowest on, at most 32 of its 36 places are written, and read backwards they are the number in that base. |
| Number.FoldDigits | vsprintf.c:55-59 | Reading the digits of a number in its base gives the number back. |
| Number.NumeralUnique | vsprintf.c:38-59 | There is one numeral for each number: any digits below the base, all in one case and without a zero in front, are the digits of the number they read as. |
| Number.PrintNumber | vsprintf.c:34-84 | Fails exactly for a base outside 2 to 36; otherwise appends the text that PrintedParts describes, in which no letter is a capital one with SMALL and none is a small one without it. |
| Number.PrintedParts | vsprintf.c:34-84 | What is printed is spaces, sign, prefix, zeros, digits and spaces: a minus exactly for a negative number with SIGN, a plus or a space as the flags ask otherwise; 0, 0x or 0X exactly with SPECIAL in base 8 and 16; zeros up to the precision; and padding up to the width behind with LEFT, as zeros with ZEROPAD, in front otherwise. |
| Number.PartsDetermine | vsprintf.c:34-84 | No other text has parts that meet this description: it determines what is printed, for every number, base, width, precision and set of flags. |
| Number.PrintedLength | vsprintf.c:51-82 | The length is the larger of the field width and sign, prefix and the larger of precision and digit count together. |
| Number.PrintedReadsBack | vsprintf.c:34-84 | For every base, width, precision and set of flags, what is printed for any 32-bit value reads back as that value, with its sign if one was asked for. |
| Number.SkipAtoi | vsprintf.c:12-19 | Reads the longest run of digits and returns its value and where it ends. |
| Number.AtoiInvertsPrint | vsprintf.c:12-84 | skip_atoi returns n on the plain decimal print of any n below 2^31 followed by something that is no digit. |
| Format.ReadSpec | vsprintf.c:107-151 | Reads flags, width, precision and qualifier and stands on the conversion character; a star takes its argument but is not passed over. |
| Format.WrittenIsRead | vsprintf.c:107-151 | A directive written with any flag characters, width, precision and qualifier is read as written, whatever follows: left, plus, space, special and zero padding are set exactly if - + space # 0 are among the flag characters, and width and precision are the numbers their digits read as. |
| Format.NumberPrinted | vsprintf.c:181-212 | Such a directive for a number prints its word in base 10 for d, i and u, 8 for o, 16 for x, X and p, 2 for b; signed for d and i only, in small letters for x only; with the sign, prefix and padding that its flag characters, width and precision ask for; p without a width fills eight places with zeros. The text reads back as the signed value for d and i and as the word for the others. |
| Format.CharacterPrinted | vsprintf.c:154-160 | c prints the low byte of its word, at the left end of the field with a minus sign among the flags, at the right end otherwise, with spaces in the rest of it. |
| Format.StringPrinted | vsprintf.c:162-179 | s prints its string cut to the precision, at the left end of the field with a minus sign among the flags, at the right end otherwise, with spaces in the rest of it. |
| Format.OtherPrinted | vsprintf.c:219-226 | Any other character prints itself behind a percent sign, a percent sign itself alone; flags, width and precision are lost and no argument is taken. |
| Format.StarPrinted | vsprintf.c:123-141 | A star for width or precision takes an argument and prints itself behind a percent sign. |
| Format.Convert | vsprintf.c:153-227 | Appends what the directive prints, as the lemmas NumberPrinted to StarPrinted tell it, and consumes the arguments it takes, for every conversion but n. |
| Format.Vsprintf | vsprintf.c:86-231 | Writes exactly the text the format denotes and a zero, and returns the length before the zero; it ends on every format. |
| Format.DenoteJoin | vsprintf.c:101-228 | A format cut between directives prints its two parts one after the other, the second with the arguments the first leaves. |
| Format.ExtraArguments | vsprintf.c:153-212 | Arguments behind those a format takes are left over and change nothing. |
| Format.PrintedSideBySide | vsprintf.c:101-228 | Two formats, each with the arguments it takes, print side by side. |
| Format.EscapedPrintsItself | vsprintf.c:101-227 | Every text with its percent signs doubled prints as itself and takes no argument. |
| Format.TrailingPercent | vsprintf.c:219-226 | A lone percent sign at the end prints itself and the formatter stops. |
| Screen.Terminal.Scroll | screen.c:41-60 | Above the last row nothing happens; below it the rows move up by one, the last one is blank and holds the cursor. |
| Screen.Terminal.Putch | screen.c:69-103 | A printable character goes in green to the cell of the cursor, and no other character writes. Newline, a tab from column 72 on and a character in column 79 lead to the start of the next row, which scrolls from row 24; return leads to column 0, a tab to the next multiple of 8, a backspace one column to the left unless at 0. Whatever page the screen shows a window of, it shows the window of that page with the character put on it. |
| Screen.ControlMeans | screen.c:77-98 | On the page, too, no control character changes a cell, and the cursor moves as just told. |
| Screen.LinesInRows | screen.c:69-137 | Lines of fewer than 80 printable characters, each ended by a newline, stand from column 0 on in consecutive rows, with every other cell as before. |
| Screen.LastLinesShown | screen.c:41-137 | A screen cleared and then written with such lines shows all of them up to 24, and the last 24 otherwise, from the top row on, with blanks in the rest. |
| Screen.Terminal.Cls | screen.c:109-121 | All 2000 cells hold a space in white on black, the cursor is at 0, 0, and the screen shows the empty page from its top. |
| Screen.Terminal.ScreenWrite | screen.c:129-137 | After any string the cells are the last 25 rows of the page the string makes on endless paper, and the cursor stays inside. |
| Screen.NextRowWindow | screen.c:84-99 | A step to the next row moves the window only from the last row, and scrolling the old cells gives the new window. |
| Screen.RenderProper | screen.c:69-137 | The cursor stays inside the page, never moves up, and nothing is ever written below its row. |
| Screen.RenderJoin | screen.c:129-137 | A string written in two parts makes the same page. |
| Screen.LeftRowsStay | screen.c:69-103 | Rows the cursor has left are never written again. |
| Screen.TextRunsOn | screen.c:87-96 | Printable text fills the cells from the cursor on one after the other, wrapping over as many rows as it takes. |
| Screen.BlankBelowCursor | screen.c:41-60 | The rows of the screen below the cursor are blank on a page with nothing below its cursor. |
| Screen.EveryScreenIsAWindow | screen.c:69-103 | Whatever the screen holds, it is the window of some page, so the statements about putch apply to every screen. |

## Left out

- Heap.VmHeap.Alloc: requests of 2^31 bytes and more, and requests that together with the heap limit and a page pass 2^32, are required not to occur, because expand adds the length in 32 bits without a check; `HeapSpec.ExpandChecksRight` tells exactly for which requests the assertions of expand go wrong, and `HeapSpec.FitsMeaning` what the fit test then means.
- Heap.VmHeap.Expand: a length that wraps when it is rounded and added to the start is required not to occur; `HeapSpec.ExpandChecksRight` and `HeapExamples.LengthRoundsToNothing` treat it.
- Kmalloc.KmallocHeap: the requests are those of Heap.VmHeap.Alloc, and the heap is sound before the call.
- Heap.VmHeap.Free: the pointer must be null or the payload of a live block.
- HeapRuns.RunSane: runs start in a sound state with 4096 frames or fewer, the number the kernel assumes (paging.c:131-133), and every call is one whose check holds.
- Heap.VmHeap.InitHeap: the page tables of the whole heap area are taken to exist. When one is missing, expand would call alloc again while the heap is being changed (heap.c:167, paging.c:200); that re-entrant call is not modelled, and neither is the step from init_paging, which makes only the first of these tables, to the heap.
- Boot.InitPaging: the bitmap is an array of nframes / 32 words; the code allocates it too small (paging.c:134). Bitmap and directory are taken to be there already.
- Threads.ResumedAsLeft: threads do not write each other's structures and stacks, and eip, the general registers the switch saves and the flags are all there is of the processor.
- Paging.Pager.GetPage: a new table is taken from the placement address; the same call made through an initialised heap is not modelled.
- Threads.Cpu.CreateThread: the address kmalloc gives for the structure is a parameter.
- Scheduler.Scheduler.ThreadIsReady: nodes are objects; their allocation and release through kmalloc and kfree are not tied to the heap.
- Format.Vsprintf: the conversion n and arguments that do not fit the directive denote nothing, widths and precisions written in the format stay below 2^31, string arguments are shorter than 2^31, and the capacity of the buffer is not modelled; the buffer is a growing sequence.
- SortedArrays.SortedArray.Insert: the comparison is passed with each call instead of being kept in the array, and the index is an array of its own rather than words of the modelled memory.
- A footer magic number just below the heap is excluded by the invariant; a hole header just past its end makes free panic and is told as that.
- panic and failed assertions are results (`Panic`, or false); nothing is said about the state after them.
- Physical memory, the page directory register, the page fault handler, permission flags beyond those alloc_frame sets, and the present flag after a release are not modelled.
- Interrupts inside queue and heap operations are not modelled; every operation is one step.
- Port output, the hardware cursor, keyboard, timer, descriptor tables, memset, strlen and the thin wrappers around kmalloc would add only easy members.
- new_sorted_array, delete_sorted_array, default_cmp_func, new_heap, test_frame and init_threading are wrappers or unused here.
