# Heap management: a verified model of the simulated allocator

`heap_management.c` simulates a dynamic-memory allocator over one fixed
arena of 1024 bytes. The arena is cut into a chain of blocks, linked by
`next` in address order. Each block starts with a header holding its
total size (header, payload and footer), a free flag and the link. Its
last word is a footer that repeats the size. Allocation searches the
chain under one of three placement policies (first, best or worst fit).
It then splits the chosen block, or takes it whole, and hands out the
address just past the header. Release marks the block free and coalesces
it with a free successor and a free predecessor.

The model has three modules:

- `Chain` (`chain.dfy`) holds the abstract view of the chain: a sequence
  of `BlockView(offset, size, free)` in address order. It also holds the
  tiling invariant `Tiles`, the invariant `NoAdjacentFree` (no two free
  neighbours), and allocation (`Split`) and release (`MergeNext`,
  `MergePrev`, `Coalesce`, `Release`) as functions on that view. Lemmas
  state what each of them keeps and changes.
- `Fit` (`fit.dfy`) defines the three placement policies. Each is a
  function over the first `n` blocks, computed block by block as the
  search loop computes it. A lemma beside each says which block it
  chooses.
- `HeapManagement` (`heap.dfy`) defines the class `Heap`. Its array
  `arena` is indexed by byte offset and holds at each block start that
  block's header. The class also holds the chain head, the active
  policy, a ghost map of the footers written, and the ghost chain
  `blocks`. `Valid()` ties the headers and footers to `blocks`, which
  must tile the arena. The C functions are methods of this class. They
  read and write headers in place, and each is proved against the
  `Chain`/`Fit` function for its step.

Constants are `HEAP_SIZE = 1024`, `HEADER_SIZE = 24` (`sizeof(Block)` on
LP64) and `FOOTER_SIZE = 8`. Every block ever created holds at least
`HEADER_SIZE + FOOTER_SIZE + 1` bytes. Pointers are offsets into the
arena, and `NULL` is `None`.

`merge_block` is modelled as `MergeBlock`, which calls `MergeWithNext`
(the forward merge, lines 167-173), then `GetPrevBlock`, then
`MergeWithPrev` (the backward merge, lines 177-182). This is the same
sequence of reads and writes as the C function, in two parts.

Two points about the code:

- Worst fit compares only blocks that already fit (line 87), so its
  size check at line 113 always passes. `Fit.SelectWorst` follows the
  code. `Fit.WorstFitIsLargestFree` proves that this equals "take the
  largest free block and fail if it is smaller than `T`". So worst fit
  never rejects a request that some free block could serve.
- Line 126 reads `(Blo ck*)`, which does not compile. The model reads it
  as the cast to `Block*` that was evidently meant.

## Model

| member | source | states |
|---|---|---|
| `HeapManagement.Heap.constructor` | heap_management.c:29-45 | At program start there is no chain yet (`heap_head` is NULL), the policy is first fit, and the arena is a newly allocated array of 1024 slots, so a caller may go on to initialise and use it. |
| `HeapManagement.Heap.SetFooter` | heap_management.c:50-53 | Writing a block's footer records its size at its last size word. |
| `HeapManagement.StoresInit` | heap_management.c:55-62 | The header and footer written by initialisation describe a chain of one free block of 1024 bytes. |
| `HeapManagement.Heap.InitHeap` | heap_management.c:55-62 | After initialisation the heap is valid, its chain is exactly one free block covering the arena, and the policy is unchanged. |
| `Chain.TilesSumToHeapSize` | heap_management.c:55-62 | In a chain that tiles the arena, the block sizes sum to `HEAP_SIZE`. |
| `Fit.SelectFirst` | heap_management.c:86-89 | A block chosen by first fit is among the blocks scanned and is free and large enough. |
| `Fit.SelectFirstSpec` | heap_management.c:86-89 | First fit chooses the lowest-address free block of at least `T` bytes, and fails exactly when there is none. |
| `Fit.SelectFirstKeeps` | heap_management.c:88-89 | Once first fit has a block, scanning further blocks does not change it, so returning at the first fit is sound. |
| `Fit.SelectBest` | heap_management.c:90-98 | A block chosen by best fit is among the blocks scanned and is free and large enough. |
| `Fit.SelectBestSpec` | heap_management.c:90-98 | Best fit chooses a fitting block with the smallest remainder `size - T`. No earlier fitting block has a remainder as small (ties go to the earliest). It fails exactly when no free block has at least `T` bytes. |
| `Fit.SelectWorst` | heap_management.c:99-104 | A block chosen by worst fit is among the blocks scanned and is free and large enough. |
| `Fit.SelectWorstSpec` | heap_management.c:99-104 | Worst fit chooses a largest fitting block. No earlier fitting block is as large (ties go to the earliest). It fails exactly when no free block has at least `T` bytes. |
| `Fit.LargestFreeSpec` | heap_management.c:112-117 | The reference block is free, no free block is larger, and no earlier free block is as large. There is none only when no block is free. |
| `Fit.WorstFitIsLargestFree` | heap_management.c:112-117 | Worst fit over fitting blocks equals "take the largest free block, and fail if it is smaller than `T`". |
| `Fit.Select` | heap_management.c:79-121 | Under any policy, a chosen block lies in the chain, is free, and holds at least `T` bytes. |
| `Fit.SelectSpec` | heap_management.c:79-121 | Under every policy the chosen block fits, and the search fails exactly when no block of the chain fits. |
| `HeapManagement.Heap.ChangeStrategy` | heap_management.c:203-206 | The active policy becomes the one given; nothing else changes. |
| `HeapManagement.Heap.FindFreeBlock` | heap_management.c:79-121 | The search returns the offset of the block its policy chooses on the current chain, or none exactly when the policy chooses none. It changes nothing. |
| `Chain.IndexOfPosition` | heap_management.c:154-162 | In a tiling chain, a block's offset identifies it: the block found by offset is the block at that position. |
| `HeapManagement.Heap.GetPrevBlock` | heap_management.c:154-162 | For a block of the chain, the walk from the head returns the block just before it, or none for the first block. For an offset that starts no block, it returns the last block. |
| `Chain.SplitTiles` | heap_management.c:124-140 | Splitting a block, or taking it whole, keeps the chain a tiling of the arena. |
| `Chain.SplitFrame` | heap_management.c:124-140 | The taken block keeps its offset, becomes occupied and holds at least `T` bytes. The blocks before it are unchanged. The blocks after it are unchanged, shifted one place when a remainder was cut off. |
| `Chain.SplitKeepsNoAdjacentFree` | heap_management.c:124-140 | Taking a free block keeps "no two free neighbours": the free remainder is followed by what followed the block, which was occupied. |
| `HeapManagement.StoresSplit` | heap_management.c:124-136 | The two headers and two footers written by a split describe the split chain. |
| `HeapManagement.StoresFlag` | heap_management.c:138 | Rewriting only a block's free flag makes the arena describe the chain with that flag changed. |
| `HeapManagement.Heap.SplitBlock` | heap_management.c:124-140 | After the split the heap is valid and the chain is the split chain: a free remainder of the old size minus `T` at offset plus `T` when the block is at least `T + HEADER_SIZE + FOOTER_SIZE + 1`, otherwise the block taken whole. |
| `Chain.SplitOccupied` | heap_management.c:142-151 | Allocation adds exactly the taken block's offset to the set of occupied blocks. |
| `HeapManagement.Heap.AllocateBlock` | heap_management.c:142-151 | A zero size, or a search that finds no block, returns none and leaves the chain unchanged. Otherwise the policy's block is split for `HEADER_SIZE + size + FOOTER_SIZE` bytes and its offset plus `HEADER_SIZE` is returned. The heap stays valid. |
| `Chain.SplitBlockFound` | heap_management.c:150 | The address allocation returns, less `HEADER_SIZE` (as release computes it at line 187), designates the block just taken, which is occupied. |
| `HeapManagement.StoresMergeNext` | heap_management.c:168-173 | The header and footer rewritten when a block absorbs its free successor describe the merged chain. |
| `HeapManagement.Heap.MergeWithNext` | heap_management.c:167-173 | A block absorbs its successor exactly when that is free and starts where the block ends. The heap stays valid, and the block's header keeps its free flag. |
| `Chain.MergeNextTiles` | heap_management.c:167-173 | The forward merge keeps the tiling, keeps the merged block at its position, offset and flag, and leaves the blocks before it unchanged. |
| `HeapManagement.StoresMergePrev` | heap_management.c:177-182 | The header and footer rewritten when a free predecessor absorbs a block describe the merged chain. |
| `HeapManagement.Heap.MergeWithPrev` | heap_management.c:176-182 | The predecessor absorbs the block exactly when it is free and ends where the block starts. The heap stays valid, and the absorbed block's header, left in the arena, keeps its free flag. |
| `Chain.MergePrevTiles` | heap_management.c:176-182 | The backward merge keeps the chain a tiling. |
| `HeapManagement.Heap.MergeBlock` | heap_management.c:164-183 | A missing block changes nothing. Otherwise the chain becomes one coalescing pass around the block (forward, then backward), the heap stays valid, and the header at the block's offset keeps its free flag. |
| `HeapManagement.Heap.FreeBlock` | heap_management.c:185-201 | Releasing NULL, a block that is already free, or a header left behind by an earlier merge (which still reads free) leaves the chain unchanged. Otherwise the block is marked free and coalesced. The heap stays valid, and the header at `ptr - HEADER_SIZE` reads free afterwards, so an immediately repeated release is accepted and ignored. |
| `Chain.ReleaseTiles` | heap_management.c:185-194 | Release keeps the chain a tiling of the arena. |
| `Chain.ReleaseOccupied` | heap_management.c:185-194 | Release removes exactly the released block's offset from the set of occupied blocks, so no other allocation is affected. |
| `Chain.ReleaseKeepsNoAdjacentFree` | heap_management.c:164-183 | If no two neighbours were free before a release, none are after it. |
| `Chain.ReleaseUndoesSplit` | heap_management.c:185-194 | In a chain with no two free neighbours, releasing a block right after allocating it restores the chain exactly. |
| `Chain.AllFreeIsWholeArena` | heap_management.c:164-183 | A tiling chain with no occupied block and no two free neighbours is one free block of 1024 bytes. |
| `Chain.ReleaseAllReclaimsArena` | heap_management.c:280-290 | Releasing every occupied block, in any order and with repeats allowed, leaves one free block covering the arena. |

## Left out

- `main` (lines 208-337) is left out: the menu, `scanf` parsing and input validation are console I/O. Only the effect of its "free all" loop is stated, by `Chain.ReleaseAllReclaimsArena`.
- `print_heap` (lines 64-76), `strategyNames` and every `printf` are left out. They are diagnostic output only. The double-free warning in `free_block` becomes "no state change".
- `allocated_pointers` and `allocation_count` (lines 46-47, 195-200, 236-301) are left out. They are bookkeeping for the menu, so `free_block`'s tracking loop is not modelled.
- Payload bytes are not modelled. The arena holds headers at block starts, and footers live in a separate ghost map. Among the blocks of the chain, a footer never overlaps a header, since every block holds at least 33 bytes. Headers left behind by coalescing stay in the arena but are not part of the chain.
- `HeapManagement.Heap.FreeBlock` requires that `ptr - HEADER_SIZE` lie in the arena and either start a block of the chain or hold a header that reads free. That second case covers an immediately repeated release of a block that a neighbour has since absorbed: its header stays in memory with the free flag set at line 193, so the C code returns at lines 188-190. A pointer that `allocate_block` never handed out, whose `ptr - HEADER_SIZE` holds no header, is left out: the C code would read arbitrary bytes as a header.
- Headers left behind by coalescing are modelled as intact records, each in its own slot. In C a header is 24 raw bytes: `size` at bytes 0-7, `free` at bytes 8-11 and `next` at bytes 16-23. A header or footer written later within those bytes can clear the stale flag. For example: init; `p1 = allocate_block(100)`; `p2 = allocate_block(100)`; `free_block(p1)`; `free_block(p2)` leaves a stale free header at offset 132. Then `allocate_block(104)` splits block 0 and writes the header of its remainder at offset 136. The upper, zero half of that header's size 888 lands on bytes 140-143, the stale `free` field, which now reads 0. A further `free_block(p2)` therefore passes line 188, and line 193 adds 2^32 to the size of block 136, which breaks the chain. The model keeps offset 132 free, so its `FreeBlock` would ignore that release. Its contract makes no false promise here: after the intervening allocation, nothing it ensures lets a caller meet `FreeBlock`'s requires for `p2`, so the model says nothing about this release.
- `HeapManagement.Heap.MergeBlock` requires its argument to start a block of the chain. In C it is only called that way.
- Integers are unbounded. `size_t` wrap-around in `HEADER_SIZE + size + FOOTER_SIZE` and in the split threshold is not modelled.
- `sizeof(Block)` is taken as 24 and `sizeof(size_t)` as 8, the LP64 values. Other platforms and struct padding are not modelled.
- The search loop guard `(char*)curr < heap + HEAP_SIZE` (line 86) is modelled as a loop that stops when `next` is NULL. In a chain that tiles the arena, every block starts inside it, so the guard always holds.
- `HeapManagement.Heap.AllocateBlock` states its result through `Chain.Split`. The facts that the taken block is occupied and large enough, and that the returned address finds it again, are stated by `Chain.SplitFrame` and `Chain.SplitBlockFound` rather than repeated in its `ensures`.
- "No two free neighbours" is proved for each step (`Chain.SplitKeepsNoAdjacentFree`, `Chain.ReleaseKeepsNoAdjacentFree`). It is not part of `Valid()`.
