# A verified model of a teaching `malloc`

This project models the allocator engine of `src/malloc.c`: a `malloc`/`free`
pair over a singly linked list of block headers living inside an arena that
grows with `sbrk`. The heap is a sequence of blocks in address order, each a
payload capacity and a free flag, with a 24-byte header in front of every
payload. Addresses are not stored: a block's header sits where the bytes of
all earlier blocks end. So blocks are contiguous and cannot overlap by
construction, which holds as long as nothing but `growHeap` moves the
program break. What a client sees is `Live`, the set of (payload address,
capacity) pairs of the blocks in use.

Modules follow the source's parts:

- `Blocks`: the header list, its byte layout (`Span`, `Offset`, `PayloadOffset`), the live allocations and the two invariants (`Aligned`, `NoAdjacentFree`).
- `Align`: the `ALIGN4` macro with 64-bit `size_t` wrap-around.
- `Fit`: `findFreeBlock`, with first, best and worst fit. Each is the C loop written as a tail-recursive function over the loop variables.
- `Growth`: `growHeap`. The outcome of `sbrk` is a parameter.
- `Splitting`: the split branch of `malloc`.
- `Coalescing`: the merge loop of `free`.
- `Allocator`: `malloc` and `free` over the heap as a value, plus round trips and scenarios.

Where the code and its own comments disagree, the model follows the comments.
It also keeps a second member for the code as written, together with a
concrete input showing the difference (see Findings). One place where the
code is followed over its own comment: `findFreeBlock` promises "a _block that
fits the request or NULL if no free _block matches" (src/malloc.c:68), but worst
fit starts its running remainder at 0 and only takes a strictly larger one
(src/malloc.c:124, 135). So it never picks an exact fit, and when the only
fitting blocks are exact fits it returns NULL and the heap grows. The start
value is a deliberate choice (the comment at line 124 weighs it against
INT_MIN), so the model keeps it, and `Fit.WorstFit` states the consequence.

## Model

| member | source | states |
|---|---|---|
| Align.Align4 | src/malloc.c:10 | Rounds up to a multiple of 4 and adds less than 4. The result is 0 exactly for a 0 request or one of the three values above 2^64 - 4, where the size_t arithmetic wraps. |
| Blocks.LiveAt | src/malloc.c:11-12 | The allocation at block i's payload address is live exactly when block i is in use. |
| Blocks.LiveIsBlock | src/malloc.c:12 | Header recovery: every live allocation is the payload of an in-use block, and no two blocks share a payload address. |
| Blocks.LiveFromIsBlock | src/malloc.c:12 | For a heap placed at any base address, every live allocation sits at the payload of an in-use block. |
| Blocks.LiveDisjoint | src/malloc.c:51-57 | Two distinct live allocations never overlap; at least one 24-byte header lies between them. |
| Blocks.PayloadBeforeLater | src/malloc.c:51-60 | List order is address order: a block's payload and the next header end before any later block's payload. |
| Fit.FirstFitFrom | src/malloc.c:88-92 | From position curr, where nothing before fits, the loop stops at the first fitting block. `last` is its predecessor, or the head itself when the head fits (`last` starts at the head, line 253), or the tail when none fits. |
| Fit.FirstFit | src/malloc.c:88-92 | First fit returns the lowest-addressed free block that is large enough. It returns NULL exactly when no block fits, and then `last` is the tail. |
| Fit.BestTake | src/malloc.c:109-113 | A fitting block with a smaller remainder than the running one becomes the running best and keeps the loop invariant. |
| Fit.BestKeep | src/malloc.c:109-115 | A fitting block whose remainder is not smaller leaves the running best in place and keeps the loop invariant. |
| Fit.BestFitFrom | src/malloc.c:100-117 | The loop ends with a winner that has the least remainder of all fitting blocks, the earliest on a tie, and with `last` at the tail. |
| Fit.BestFit | src/malloc.c:96-119 | Best fit returns a fitting block with minimal remainder, the earliest on ties. A remainder of INT_MAX or more is never taken, so NULL means every fit leaves at least INT_MAX. `last` is the tail. |
| Fit.ToInt | src/malloc.c:138 | Storing a size_t remainder in an int keeps values up to INT_MAX and maps every value into the 32-bit signed range. |
| Fit.ToSize | src/malloc.c:135 | Comparing with the int running remainder converts it to size_t; non-negative values are unchanged. |
| Fit.WorstTake | src/malloc.c:135-139 | A fitting block whose remainder beats the running one, compared as size_t, becomes the winner and keeps the loop invariant. |
| Fit.WorstKeep | src/malloc.c:135-141 | A fitting block that does not beat the running remainder leaves the winner in place and keeps the loop invariant. |
| Fit.WorstFitFrom | src/malloc.c:126-142 | The loop ends with a fitting winner with a non-zero remainder, maximal while remainders fit an int, and with `last` at the tail. |
| Fit.WorstFit | src/malloc.c:122-145 | Worst fit returns a fitting block with a positive remainder. It returns NULL exactly when all fits are exact. The remainder is maximal, earliest on ties, when remainders fit an int. |
| Fit.FindFreeBlock | src/malloc.c:74-145 | Under any strategy the block found is free and large enough. On NULL, `last` is the tail. Under first fit, NULL means nothing fits. |
| Fit.StrategiesDiverge | src/malloc.c:88-143 | Free blocks of 100, 20 and 50 bytes with a 20-byte request: first and worst fit take the 100-byte block, best fit the 20-byte one. |
| Fit.WorstFitSkipsExactFit | src/malloc.c:124-139 | A single free 8-byte block and an 8-byte request: worst fit returns NULL where first fit takes the block. |
| Growth.Grow | src/malloc.c:183-219 | Returns NULL exactly when sbrk refuses, as the comments at lines 183 and 193 promise (the code differs, see Findings). Otherwise it appends one in-use block of the requested size at the old break, which is the arena end when only `growHeap` moves the break, after the tail. That adds exactly one fresh live allocation and keeps both invariants. |
| Growth.GrowAsWritten | src/malloc.c:188-197 | As written, growth never returns NULL. A refused sbrk aborts when assertions are compiled in; without them it hands out a block the arena was not extended for. |
| Growth.RefusedGrowthAsWritten | src/malloc.c:191-194 | A refused sbrk on an empty heap: the intended growth gives NULL, the code aborts, or without assertions returns an unbacked 8-byte block. |
| Splitting.ShouldSplit | src/malloc.c:256-265 | The intended split test: a split leaves room for a header and more than 4 payload bytes, and a block handed over whole wastes at most a header plus 4 bytes. |
| Splitting.SplitTestAsWritten | src/malloc.c:267 | The written test is the intended one with the request taken as 0: it looks only at the block's capacity. |
| Splitting.Split | src/malloc.c:256-291 | The front keeps exactly the request and is in use. A free block right after it takes the rest less one header, more than 4 bytes. No byte is lost and no offset before the split moves. The new header sits at payload + request. Exactly one fresh allocation becomes live, and both invariants hold. |
| Splitting.SplitAsWritten | src/malloc.c:274-288 | The split as written inserts one block after block i; the two lemmas below show what it records. |
| Splitting.SplitTestAsWrittenWraps | src/malloc.c:267 | A 40-byte block and a 36-byte request pass the written test but not the intended one. The written remainder size wraps to 2^64 - 20. |
| Splitting.FrontSizeAsWrittenBreaksLayout | src/malloc.c:274 | Splitting a 100-byte block for 20 bytes as written records 60 bytes more than the arena holds. The recorded next header is not at payload + 20. The intended split keeps both. |
| Coalescing.Merge | src/malloc.c:345-347 | Merging k+1 into k keeps every other block in place. Block k gets both payloads plus a header. Bytes and alignment are kept, and so are the live allocations when both blocks were free. |
| Coalescing.CoalesceFrom | src/malloc.c:339-350 | The pass from k, stopping at the tail and rechecking after a merge, leaves no adjacent free pair and never lengthens the list. |
| Coalescing.CoalesceFromPreserves | src/malloc.c:345-347 | The pass moves no live allocation, loses no byte and keeps alignment. |
| Coalescing.Coalesce | src/malloc.c:339-350 | The whole pass leaves no adjacent free pair, with the same bytes, live allocations and alignment. |
| Coalescing.CoalesceSkip | src/malloc.c:341-349 | Over a stretch without free pairs the pass only advances. |
| Coalescing.CoalesceIdle | src/malloc.c:341-350 | On a list with no adjacent free pair the pass changes nothing. |
| Coalescing.CoalesceAsWritten | src/malloc.c:339-350 | When the loop as written does not crash, it keeps the bytes and the live allocations and does not lengthen the list. |
| Coalescing.TailDereferenceAsWritten | src/malloc.c:343 | Releasing the only block makes the loop as written read the NULL successor of the free tail. The intended pass leaves the one free block. |
| Coalescing.AdvanceAfterMergeAsWritten | src/malloc.c:349 | With three free blocks in a row, the loop as written leaves two adjacent free blocks. The intended pass merges all three. |
| Allocator.Malloc | src/malloc.c:233-312 | A request that aligns to 0 gives NULL and no change. When the strategy finds block i, that block is handed out. It is split to exactly the aligned size with a free remainder of the rest less a header right after it when the leftover exceeds a header plus 4; otherwise it is handed over whole. When nothing is found, the new tail block of the aligned size is handed out, or NULL when sbrk refuses, with the heap unchanged. The block is in use and at least as large as the request, exactly one fresh allocation becomes live, and both invariants hold. |
| Allocator.MarkUsed | src/malloc.c:307 | Only the flag of block i changes. Its allocation becomes live and nothing moves. |
| Allocator.Free | src/malloc.c:324-353 | NULL is ignored. Otherwise the released allocation was live and is the only one removed, and no two adjacent blocks are left free. |
| Allocator.FreeKeepsArena | src/malloc.c:334-350 | A release keeps the arena's size (nothing goes back to the operating system) and keeps every capacity a multiple of 4. |
| Allocator.LocalRelease | src/malloc.c:336-337 | The release the comment describes (merge with a free predecessor and/or successor) keeps the arena size and removes at most two list entries. |
| Allocator.FreeIsLocal | src/malloc.c:336-350 | On a heap with no adjacent free blocks, the global pass after a release does exactly the local merge with the freed block's neighbours. |
| Allocator.ReleaseBetweenFree | src/malloc.c:341-349 | With both neighbours free, the pass merges twice at the predecessor. |
| Allocator.ReleaseAfterFree | src/malloc.c:341-349 | With only the predecessor free, the pass merges once at the predecessor. |
| Allocator.ReleaseBeforeFree | src/malloc.c:341-349 | With only the successor free, the pass merges once at the released block. |
| Allocator.ReleaseAlone | src/malloc.c:341-350 | With neither neighbour free, the pass only leaves the flag flipped. |
| Allocator.MallocFreeRoundTrip | src/malloc.c:233-353 | Allocating from a free block and releasing the result gives the original heap back, split or not. |
| Allocator.SplitThenRelease | src/malloc.c:267-291 | Splitting a free block and releasing its front restores the block. |
| Allocator.MarkThenRelease | src/malloc.c:307 | Handing a free block over whole and releasing it restores the heap. |
| Allocator.ReuseAfterFree | src/malloc.c:233-353 | Under first fit: allocate 10 and 20 bytes (two growths to 12 and 20), release the first, allocate 8. The 12-byte block is reused in place without growth. |
| Allocator.ReleasePairEitherOrder | src/malloc.c:324-353 | Two adjacent in-use blocks with in-use outer neighbours, released in either order: the first release only frees its block, the second leaves one free block of both payloads plus a header, and nothing else changes. |
| Allocator.ReleaseLowerThenUpper | src/malloc.c:324-353 | The lower-then-upper order of the pair release above. |
| Allocator.ReleaseUpperThenLower | src/malloc.c:324-353 | The upper-then-lower order of the pair release above. |
| Allocator.PairMerged | src/malloc.c:345-347 | Merging two adjacent free blocks that sit between in-use blocks gives one free block of both payloads plus a header, with every other block unchanged. |
| Allocator.ReleaseOrder | src/malloc.c:324-353 | Example: in the heap of in-use blocks of 8, 12 and 16 bytes, releasing the first two in either order leaves a free 44-byte block before the 16-byte one. |
| Allocator.ReleaseLowerFirst | src/malloc.c:324-353 | Example: the same heap, releasing the 8-byte block and then the 12-byte one. |
| Allocator.ReleaseUpperFirst | src/malloc.c:324-353 | Example: the same heap, releasing the 12-byte block and then the 8-byte one. |

## Left out

- Next fit (src/malloc.c:148-168) is not modelled. As written it is not a fit test: its loop (line 155) stops at any block that is free or large enough. The roving pointer also starts NULL, so the search starts at NULL, returns NULL and stores NULL again (lines 151, 166). Every request then grows the heap.
- Fit.BestFit: the "NULL exactly when nothing fits" direction is stated only when every block is smaller than INT_MAX. A fitting remainder of INT_MAX or more never beats the starting value, so the stronger form is false there.
- `calloc` and `realloc` (src/malloc.c:355-366) are stubs that return NULL and are not modelled.
- The statistics counters, `printStatistics` and the `atexit` registration (src/malloc.c:14-49, src/malloc.c:236-240) are diagnostics outside the allocator's contract and are not modelled.
- `sbrk` is replaced by a boolean outcome: whether the operating system extends the data segment.
- Growth.Grow: the model assumes `growHeap` is the only code that moves the program break, so every new block starts where the previous tail ends (src/malloc.c:188, 215-217 place the header wherever `sbrk(0)` points). Blocks with a gap that foreign `sbrk`/`brk` calls left between them are not modelled; the merge at line 346 would count such a gap's bytes in the merged size.
- Pointers are block indices. `BLOCK_DATA`/`BLOCK_HEADER` (src/malloc.c:11-12) are the index-to-address map `PayloadOffset`.
- Allocator.Free: a pointer that is not an in-use block's payload is a precondition. The source's `assert` at src/malloc.c:333 aborts on a double free (with assertions compiled in; without them the flag is set again and the pass re-runs), and any other pointer is undefined behaviour.
- Fit.WorstFit: maximality is stated only when every fitting remainder fits a 32-bit int. Beyond that, the truncated running remainder can make a smaller block win. This is a property of the conversion, not a claim about which block wins.
- Growth.Grow: the sbrk increment `sizeof(struct _block) + size` is not wrapped at 64 bits. For an aligned size above 2^64 - 24 the C sum wraps to a small increment that sbrk can grant, under a header that claims the huge size. The model takes the sbrk outcome as an input and records the unwrapped size.
- Threads: the source has no locking, and the model is sequential.

## Findings

| source | as written | input that shows it | evidently intended | confidence | as-written member | corrected member |
|---|---|---|---|---|---|---|
| src/malloc.c:267 | splits when the whole capacity exceeds 24 + 4 | a free 40-byte block and a 36-byte request: the leftover is 4, and the remainder size `40 - (36 + 24)` wraps to 2^64 - 20 | split only when capacity minus request exceeds 24 + 4 (comments at lines 264-265) | not executed | Splitting.SplitTestAsWritten, Splitting.SplitTestAsWrittenWraps | Splitting.Split |
| src/malloc.c:274 | the front block keeps `capacity - request` bytes | a free 100-byte block and a 20-byte request: the front records 80 bytes, the arena's recorded sizes exceed its bytes by 60, and the next header is not where the code writes it | the front keeps exactly the request (the new header is written at payload + request, line 278) | not executed | Splitting.SplitAsWritten, Splitting.FrontSizeAsWrittenBreaksLayout | Splitting.Split |
| src/malloc.c:343 | reads `temp->next->free` when `temp` is a free tail | releasing the only block of the heap: the successor is NULL | stop at the tail, which has no neighbour to merge with | not executed | Coalescing.CoalesceAsWritten, Coalescing.TailDereferenceAsWritten | Coalescing.CoalesceFrom |
| src/malloc.c:349 | after a merge moves past the merged block | blocks free, in use, free, in use, releasing block 1: three free blocks in a row end as two adjacent free blocks | recheck the merged block against its new successor, so no two adjacent blocks stay free (comment at lines 336-337) | not executed | Coalescing.CoalesceAsWritten, Coalescing.AdvanceAfterMergeAsWritten | Coalescing.Coalesce |
| src/malloc.c:191-194 | a refused sbrk fails the assert `curr == prev`, and the NULL test checks `curr` (the old break from `sbrk(0)`) instead of `prev` | an empty heap, an 8-byte request and sbrk refusing: the process aborts, or without assertions gets a block the arena does not hold | return NULL when the operating system refuses (comments at lines 183 and 193) | not executed | Growth.GrowAsWritten, Growth.RefusedGrowthAsWritten | Growth.Grow |
