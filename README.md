# unsynchronized_pool_resource, modelled and verified in Dafny

This project models the single-threaded pool allocator
`memory_resource::unsynchronized_pool_resource` of the KPHP runtime. The
allocator manages one arena. It hands memory out from a bump cursor and keeps
the memory it gets back in three places:

- per-size-class free lists (`free_chunks_`);
- a tree of large free regions (`huge_pieces_`);
- a second bump region, the fallback resource, carved out of one huge piece.

The model covers the four operations of `unsynchronized_pool_resource.cpp`:

- `init`;
- `perform_defragmentation`;
- `allocate_small_piece_from_fallback_resource`, the small-request slow path;
- `perform_defragmentation_and_allocate_huge_piece`.

It also covers the collaborators these operations call: `put_memory_back`,
`try_allocate_small_piece`, `allocate_huge_piece`, the bump allocator's
`get_from_pool`, the tree's `extract`/`flush_to`, and the merging list's
`add_memory`/`flush`/`get_next`.

Memory is modelled as integer offsets. A free region is a `Piece(addr, size)`.

The object is the class `PoolResource.UnsynchronizedPoolResource`. Its fields
are updated in place:

- the free lists are an `array<seq<int>>`;
- the tree is a `seq<Piece>`;
- the fallback and the arena cursor are `BumpRegion` values;
- the statistics are a `MemoryStats` value.

`State()` views the fields as a `PoolSpec.PoolState`. The public operations
and the collaborators they call are proved to compute a function of
`PoolSpec`, and the properties are proved about those functions. The draining
steps of defragmentation (`PopFreeChunk`, `FlushHugePiecesTo`, `DrainTo`,
`DrainFreeChunksTo`, `DrainFreeListTo`) state their effect on the fields and on
the merging list directly.

The allocator's invariant is `PoolState.Consistent`. It says:

- the class-0 list is empty;
- every huge piece is at least `MAX_CHUNK_BLOCK_SIZE` bytes;
- the piece counters match the structures;
- the free regions are 8-byte granular and lie in the bumped part of the arena;
- they cover their bytes exactly once (`ExactCover`, which
  `MemoryRegions.ExactCoverIffDisjoint` proves equivalent to pairwise
  disjointness).

An allocation is specified by `Taken`. On success, the returned block was
available (free or not yet bumped) and is available no more. On failure,
nothing available changed.

Modules:

- `chunk_sizes.dfy`: the size-class ladder.
- `memory_regions.dfy`: regions, their byte sets, and the exact-cover algebra.
- `monotonic_buffer.dfy`: the bump allocator.
- `free_chunk_lists.dfy`: the free lists viewed as regions.
- `ordered_chunk_list.dfy`: the address-ordered merging list.
- `pool_spec.dfy`: the state, the invariant, and every operation as a function, with its lemmas.
- `pool_resource.dfy`: the class.

## Model

| member | source | states |
|---|---|---|
| PoolResource.UnsynchronizedPoolResource.Init | runtime/memory_resource/unsynchronized_pool_resource.cpp:11-17 | The new state is the restarted one, whatever the old state was. The arena is the buffer, nothing is bumped, and the statistics are zero. The tree, the fallback region and every free list are empty (via PoolSpec.Init). The invariant holds, and exactly the buffer's bytes are available. |
| PoolSpec.Init | runtime/memory_resource/unsynchronized_pool_resource.cpp:11-17 | After init, every free list and the tree are empty, the fallback has size 0 and the statistics are zero, independent of the previous state. |
| PoolSpec.InitKeeps | runtime/memory_resource/unsynchronized_pool_resource.cpp:11-17 | The state after init is consistent, tracks no free region, and has exactly `[buffer, buffer + size)` available. |
| PoolResource.UnsynchronizedPoolResource.constructor | runtime/memory_resource/unsynchronized_pool_resource.cpp:14-16 | A resource before any buffer is given: every free list, the tree and the fallback region are empty, as the reset of lines 14-16 leaves them. It is consistent, and nothing is free or available. |
| PoolResource.UnsynchronizedPoolResource.PutMemoryBack | runtime/memory_resource/unsynchronized_pool_resource.cpp:42 | `put_memory_back` is PoolSpec.PutBack: push onto the free list of the size's class when one exists, else insert into the tree, and count the piece. |
| PoolSpec.PutBack | runtime/memory_resource/unsynchronized_pool_resource.cpp:42 | `put_memory_back` only touches the free lists, the tree and the piece counters: the arena, the fallback region, the number of lists, `memory_used` and `defragmentation_calls` are unchanged. |
| PoolSpec.PutBackKeeps | runtime/memory_resource/unsynchronized_pool_resource.cpp:42 | Putting back a bumped block that overlaps nothing free keeps the invariant. It adds exactly that region to the tracked regions and exactly its bytes to the free set. A small size lands on a list, any other size in the tree. |
| PoolResource.UnsynchronizedPoolResource.PopFreeChunk | runtime/memory_resource/unsynchronized_pool_resource.cpp:33 | `get_mem` on a free list returns None exactly when the list is empty. Otherwise it returns the head and removes only that head, leaving every other list unchanged. |
| PoolResource.UnsynchronizedPoolResource.ExtractHugePiece | runtime/memory_resource/unsynchronized_pool_resource.cpp:57 | Extraction from the tree is PoolSpec.ExtractBestFit. Only the tree changes. |
| PoolSpec.ExtractBestFit | runtime/memory_resource/unsynchronized_pool_resource.cpp:57 | The result is None exactly when no piece reaches the minimum, and then the state is unchanged. Otherwise the piece was in the tree, reaches the minimum, is no larger than any other piece that does, and leaves the tree (as a multiset). |
| PoolSpec.BestFitProperties | runtime/memory_resource/unsynchronized_pool_resource.cpp:57 | The scan returns -1 exactly when no piece fits. Otherwise it returns a fitting piece of least size. |
| PoolResource.UnsynchronizedPoolResource.GetFromFallback | runtime/memory_resource/unsynchronized_pool_resource.cpp:52 | `fallback_resource_.get_from_pool` is PoolSpec.FallbackGet. Only the fallback region changes. |
| PoolSpec.FallbackGet | runtime/memory_resource/unsynchronized_pool_resource.cpp:52 | The fallback allocation succeeds exactly when the fallback holds `size` bytes. It returns the fallback cursor, leaves `size` bytes fewer, and changes nothing but the fallback region. On failure the state is unchanged. |
| MonotonicBuffer.BumpRegion.GetFromPool | runtime/memory_resource/unsynchronized_pool_resource.cpp:52 | The bump allocator succeeds exactly when `size` bytes remain. It returns the cursor, and the block and the new remainder split the old remainder. On failure nothing changes. |
| PoolSpec.FallbackGetKeeps | runtime/memory_resource/unsynchronized_pool_resource.cpp:52-55 | A fallback allocation keeps the invariant and takes exactly its block. It succeeds exactly when the fallback holds `size` bytes, returns the fallback's cursor, and leaves the lists, tree, arena and statistics alone. |
| PoolResource.UnsynchronizedPoolResource.GetFromPool | runtime/memory_resource/unsynchronized_pool_resource.cpp:60 | The arena's own bump is PoolSpec.PoolGet. Only the arena cursor changes. |
| PoolSpec.PoolGet | runtime/memory_resource/unsynchronized_pool_resource.cpp:60 | The arena bump succeeds exactly when the arena has `size` bytes left. It returns the arena cursor, leaves `size` bytes fewer, and changes nothing but the cursor. On failure the state is unchanged. |
| PoolSpec.PoolGetKeeps | runtime/memory_resource/unsynchronized_pool_resource.cpp:60 | An arena bump keeps the invariant and takes exactly its block. It succeeds exactly when the arena has `size` bytes left. |
| PoolResource.UnsynchronizedPoolResource.TryAllocateSmallPiece | runtime/memory_resource/unsynchronized_pool_resource.cpp:60 | `try_allocate_small_piece` is PoolSpec.TryAllocateSmall: the class's free list first, then the arena. |
| PoolSpec.TryAllocateSmall | runtime/memory_resource/unsynchronized_pool_resource.cpp:60 | A failed retry changes nothing. The retry never touches the tree, the fallback region or the defragmentation count. |
| PoolSpec.TryAllocateSmallKeeps | runtime/memory_resource/unsynchronized_pool_resource.cpp:60 | Takes the head of the class's list when that list is non-empty. Fails exactly when the list is empty and the arena is too short. Keeps the invariant, takes exactly the block, and does not touch the tree or the fallback. |
| PoolResource.UnsynchronizedPoolResource.AllocateHugePiece | runtime/memory_resource/unsynchronized_pool_resource.cpp:79 | `allocate_huge_piece` is PoolSpec.AllocateHuge: the front of a best-fitting tree piece with its tail put back, else an arena bump. |
| PoolSpec.AllocateHuge | runtime/memory_resource/unsynchronized_pool_resource.cpp:79 | Fails exactly when no tree piece is large enough and the arena is too short. When a piece fits, the result is the start of a smallest fitting piece and the arena is untouched. |
| PoolSpec.Carve | runtime/memory_resource/unsynchronized_pool_resource.cpp:79 | Cutting a request from the front of a tree piece, with the tail put back, leaves the arena, the fallback region and the defragmentation count unchanged. |
| PoolSpec.AllocateHugeKeeps | runtime/memory_resource/unsynchronized_pool_resource.cpp:79 | A huge allocation keeps the invariant and takes exactly its block. |
| PoolResource.UnsynchronizedPoolResource.FlushHugePiecesTo | runtime/memory_resource/unsynchronized_pool_resource.cpp:23 | `flush_to` hands every huge piece to the merging list, in order, and empties the tree. |
| PoolResource.UnsynchronizedPoolResource.DrainTo | runtime/memory_resource/unsynchronized_pool_resource.cpp:23-36 | Hands the merging list exactly the regions of PoolSpec.Drained, in this order: the tree, the fallback remainder if non-empty, then the lists of classes 1 up. It resets a non-empty fallback, relies on the class-0 list being empty, and leaves every structure empty. |
| PoolSpec.DrainedPermutes | runtime/memory_resource/unsynchronized_pool_resource.cpp:23-36 | The regions drained into the merging list are exactly the tracked free regions, each once (as a multiset). |
| PoolResource.UnsynchronizedPoolResource.DrainFreeChunksTo | runtime/memory_resource/unsynchronized_pool_resource.cpp:29-36 | Draining the lists of classes 1 up hands over exactly ChunkRegions of the old lists and leaves every list empty. |
| PoolResource.UnsynchronizedPoolResource.DrainFreeListTo | runtime/memory_resource/unsynchronized_pool_resource.cpp:32-35 | Pops one list until it is empty. Every chunk goes to the merging list with exactly the class's chunk size, in list order, and no other list changes. |
| PoolResource.DrainList | runtime/memory_resource/unsynchronized_pool_resource.cpp:31-36 | When the lists below `k` are empty, list `k`'s chunks are the next regions of the drain order, so draining list by list loses nothing. |
| OrderedChunkList.MemoryOrderedChunkList.AddMemory | runtime/memory_resource/unsynchronized_pool_resource.cpp:34 | `add_memory` records exactly the region given. |
| OrderedChunkList.MemoryOrderedChunkList.constructor | runtime/memory_resource/unsynchronized_pool_resource.cpp:21 | The merging list starts empty and remembers the arena start. |
| OrderedChunkList.MemoryOrderedChunkList.Flush | runtime/memory_resource/unsynchronized_pool_resource.cpp:40 | `flush` yields the added regions sorted by address with adjacent ones joined. When the added regions are pairwise disjoint and every size is a multiple of 8 bytes, no two of the results overlap or touch, and the results cover the same bytes with the same total. |
| OrderedChunkList.SortByAddress | runtime/memory_resource/unsynchronized_pool_resource.cpp:40 | The merging list orders its regions by address and keeps exactly the regions added (a permutation). |
| OrderedChunkList.Merge | runtime/memory_resource/unsynchronized_pool_resource.cpp:40 | Joining adjacent regions never adds a region, and the first region keeps its start address. |
| PoolSpec.Coalesced | runtime/memory_resource/unsynchronized_pool_resource.cpp:40 | The merged output for a consistent state is fully merged, an exact and granular cover of exactly the free bytes with the same total, and has no empty region. |
| OrderedChunkList.FlushProperties | runtime/memory_resource/unsynchronized_pool_resource.cpp:40 | Sorting then merging an exact, 8-granular cover keeps it an exact, granular cover of the same bytes and total. It leaves no two regions touching. |
| PoolResource.UnsynchronizedPoolResource.PutBackMerged | runtime/memory_resource/unsynchronized_pool_resource.cpp:40-44 | The model walks the merged regions in order and puts back each one; the new state is PoolSpec.PutBackAll of the merged sequence. |
| PoolSpec.PutBackAll | runtime/memory_resource/unsynchronized_pool_resource.cpp:40-44 | Putting back a sequence of regions only touches the free lists, the tree and the piece counters: the arena, the fallback region, `memory_used` and `defragmentation_calls` are unchanged. |
| PoolSpec.PutBackAllKeeps | runtime/memory_resource/unsynchronized_pool_resource.cpp:40-44 | Putting back an exact cover of bumped, non-free bytes keeps the invariant. |
| PoolSpec.PutBackAllRegions | runtime/memory_resource/unsynchronized_pool_resource.cpp:40-44 | The tracked regions gain exactly the regions put back (as a multiset). |
| PoolSpec.Cleared | runtime/memory_resource/unsynchronized_pool_resource.cpp:23-39 | Once drained and with both piece counters zeroed, every free list and the tree are empty and the fallback has nothing left. The arena and the other statistics are unchanged. |
| PoolSpec.ClearedKeeps | runtime/memory_resource/unsynchronized_pool_resource.cpp:38-39 | With every structure drained and both piece counters zeroed, the state is consistent and tracks nothing free. |
| PoolSpec.MemoryStats.RegisterDeallocation | runtime/memory_resource/unsynchronized_pool_resource.cpp:47 | `register_deallocation(size)` lowers the bytes in use by `size` and changes no other counter. |
| PoolSpec.CountDefragmentation | runtime/memory_resource/unsynchronized_pool_resource.cpp:47-48 | The closing step adds exactly 1 to `defragmentation_calls`. It leaves the bytes in use and everything else unchanged. |
| PoolResource.UnsynchronizedPoolResource.UpdateDefragmentationStats | runtime/memory_resource/unsynchronized_pool_resource.cpp:47-48 | The statistics step of defragmentation is PoolSpec.CountDefragmentation, and nothing but the statistics changes. |
| PoolResource.UnsynchronizedPoolResource.PerformDefragmentation | runtime/memory_resource/unsynchronized_pool_resource.cpp:19-49 | The new state is PoolSpec.Defragmented: the coalesced free regions put back into emptied structures, with the call counted. The invariant is kept, and the free bytes and available bytes are unchanged. Afterwards no two tracked free regions touch. |
| PoolSpec.DefragKeeps | runtime/memory_resource/unsynchronized_pool_resource.cpp:19-49 | Defragmentation keeps the invariant and the free and available byte sets. It leaves no touching regions, adds exactly 1 to `defragmentation_calls`, and keeps `memory_used`. |
| PoolSpec.DefragBytes | runtime/memory_resource/unsynchronized_pool_resource.cpp:23-44 | The total of free bytes after redistribution equals the total before. |
| PoolSpec.DefragRegions | runtime/memory_resource/unsynchronized_pool_resource.cpp:40-44 | After defragmentation the tracked regions are exactly the coalesced regions. |
| PoolSpec.Defragmented | runtime/memory_resource/unsynchronized_pool_resource.cpp:19-49 | After defragmentation the fallback region is empty, the arena is unchanged, and the call count is one higher. |
| PoolResource.UnsynchronizedPoolResource.AllocateSmallPieceFromFallbackResource | runtime/memory_resource/unsynchronized_pool_resource.cpp:51-74 | The slow path computes PoolSpec.AllocateSmallFromFallback. It keeps the invariant and takes exactly the block it returns. |
| PoolSpec.AllocateSmallFromFallback | runtime/memory_resource/unsynchronized_pool_resource.cpp:51-74 | The slow path defragments at most once, and exactly when the fallback is too short and the tree is empty: `defragmentation_calls` goes up by 1 in that case and by 0 otherwise. |
| PoolResource.UnsynchronizedPoolResource.RefillFallback | runtime/memory_resource/unsynchronized_pool_resource.cpp:65-70 | Taking a huge piece for the fallback is PoolSpec.Refill: one huge piece fewer, the old remainder put back if non-empty, and the fallback restarted over the piece's whole size. |
| PoolSpec.Refill | runtime/memory_resource/unsynchronized_pool_resource.cpp:65-70 | After a refill (the huge counter first lowered by PoolSpec.OneHugeFewer) the fallback region is exactly the extracted piece, nothing handed out, and the arena, the number of lists and the defragmentation count are unchanged. |
| PoolSpec.OneHugeFewer | runtime/memory_resource/unsynchronized_pool_resource.cpp:66 | Taking a piece out of the tree lowers the huge-piece counter by exactly one; the lists, tree, fallback, arena and every other counter stay as they were. |
| PoolSpec.RefillKeeps | runtime/memory_resource/unsynchronized_pool_resource.cpp:65-70 | Refilling keeps the invariant and loses no byte (same free and available sets). The huge counter is one lower when the remainder put back is not itself a huge piece. |
| PoolSpec.RefillAndGet | runtime/memory_resource/unsynchronized_pool_resource.cpp:65-73 | Refilling and allocating from the fallback leaves the arena, the number of lists and the defragmentation count unchanged. |
| PoolSpec.AllocateSmallFromFallbackKeeps | runtime/memory_resource/unsynchronized_pool_resource.cpp:51-74 | Every outcome of the slow path keeps the invariant and takes exactly the block it returns. |
| PoolSpec.AllocateSmallFromFallbackHit | runtime/memory_resource/unsynchronized_pool_resource.cpp:52-55 | When the fallback can serve the request, its cursor is returned and the lists, tree, arena and statistics are unchanged. |
| PoolSpec.AllocateSmallFromFallbackRefill | runtime/memory_resource/unsynchronized_pool_resource.cpp:57-73 | When the fallback is too short and the tree is not empty, the result is the start of a smallest huge piece, which becomes the fallback. The huge counter is one lower, and the small counter is one higher exactly when a remainder was put back. |
| PoolSpec.AllocateSmallFromFallbackRetry | runtime/memory_resource/unsynchronized_pool_resource.cpp:58-64 | When the fallback is too short and the tree is empty, the outcome is the retry on the defragmented state, which is consistent and has an empty fallback. |
| PoolSpec.RetryAfterDefragmentation | runtime/memory_resource/unsynchronized_pool_resource.cpp:59-64 | The retry returns the head of the class's list, else the arena cursor. It fails exactly when the list, the arena, the tree and the fallback are all short, and it does not defragment again. |
| PoolSpec.RetryAfterDefragmentationRefill | runtime/memory_resource/unsynchronized_pool_resource.cpp:60-73 | After a defragmentation that left the class's list and the arena short but the tree not empty, the second extraction (line 63) returns the start of a smallest huge piece, and that piece becomes the fallback region with the request cut off its front. |
| PoolResource.UnsynchronizedPoolResource.PerformDefragmentationAndAllocateHugePiece | runtime/memory_resource/unsynchronized_pool_resource.cpp:76-80 | Computes PoolSpec.DefragmentAndAllocateHuge: one defragmentation, then one huge allocation. It keeps the invariant and takes exactly the block it returns. |
| PoolSpec.DefragmentAndAllocateHuge | runtime/memory_resource/unsynchronized_pool_resource.cpp:76-80 | Exactly one defragmentation is counted. The call fails exactly when no defragmented tree piece is large enough and the arena is too short; there is no further retry. |
| PoolSpec.DefragmentAndAllocateHugeKeeps | runtime/memory_resource/unsynchronized_pool_resource.cpp:76-80 | The huge slow path keeps the invariant and takes exactly the block it returns. |
| MemoryRegions.ExactCoverIffDisjoint | runtime/memory_resource/unsynchronized_pool_resource.cpp:19-49 | The invariant's cover condition (the sizes add up to the number of bytes covered) holds exactly when the free regions are pairwise disjoint. |
| ChunkSizes.ChunkId | runtime/memory_resource/unsynchronized_pool_resource.cpp:32 | An aligned size has a real class (never 0) whose `get_chunk_size` is the size itself. Its class has a free list exactly when the size is small. |
| MonotonicBuffer.InitRegion | runtime/memory_resource/unsynchronized_pool_resource.cpp:70 | `init(buffer, size)` makes exactly `[buffer, buffer + size)` available, with nothing handed out. |

## Left out

- Logging: the `memory_debug` calls (lines 20, 54 and 71) and the `likely` hint (line 53) have no effect on state and are not modelled.
- Raw pointers and intrusive links: memory is integer offsets. A free list is a `seq<int>` of chunk offsets, and the tree and the merging list hold `Piece` values, not nodes stored inside the free memory. Aliasing between a node and the bytes it describes is therefore not modelled.
- The headers `unsynchronized_pool_resource.h`, `monotonic_buffer_resource.h`, `details/memory_chunk_list.h`, `details/memory_chunk_tree.h` and `details/memory_ordered_chunk_list.h` are not part of this model. Their behaviour is modelled from their names and uses as follows:
  - the 8-byte alignment, `MAX_CHUNK_BLOCK_SIZE` of 16 KiB and `get_chunk_size(id) == 8 * id` are chosen values;
  - the tree is an unordered sequence searched for a smallest fitting piece (ties go to the earliest);
  - the merging list is sort-by-address-then-join-adjacent;
  - `put_memory_back`, `try_allocate_small_piece` and `allocate_huge_piece` are modelled as the tables above say.
- PoolSpec.Init: the base `monotonic_buffer_resource::init` called at line 12 is modelled as restarting the arena cursor over the buffer and zeroing every statistic (`stats == ZERO_STATS`). `monotonic_buffer_resource.h` is not part of this model, so that reset of the statistics is an assumption about it.
- The `safe` flag of `get_from_pool` and `allocate_huge_piece`: the headers that define it are not part of this model, so its meaning is an assumption. It is assumed to select only whether an out-of-memory report is made, so no parameter carries it. Reading it as "allow a partial block" is not taken, because lines 52-55 return `mem` directly as the block of `aligned_size` bytes, which a shorter block could not be. The failure report on line 73 is modelled as a None result.
- `memory_ordered_chunk_list` keeps its regions in its own buffer relative to `memory_begin_`. The model keeps `memoryBegin` but stores regions in a sequence, so that buffer's capacity is not modelled.
- MemoryStats has only the four counters the core touches (`memory_used`, `small_memory_pieces`, `huge_memory_pieces`, `defragmentation_calls`). Other counters that `register_deallocation` may update are not modelled.
- Integer width: `size_type` is unsigned 32-bit in the runtime. The model uses unbounded integers and assumes arena offsets never wrap.
- PoolResource.UnsynchronizedPoolResource.AllocateSmallPieceFromFallbackResource: requires a small aligned size. The callers in the header only take this path for such sizes; that caller is not part of this model.
- PoolResource.UnsynchronizedPoolResource.PerformDefragmentationAndAllocateHugePiece: requires an aligned size, as the allocation entry point in the header guarantees.
- PoolResource.UnsynchronizedPoolResource.PerformDefragmentation: the `php_assert` of line 30 is modelled as part of the invariant `Valid()` (class 0 is always empty), not as a run-time check.
- The helper methods FlushHugePiecesTo, DrainTo, DrainFreeChunksTo, DrainFreeListTo, PutBackMerged, UpdateDefragmentationStats and RefillFallback are inline code in the source. They are split out only so that each loop and step is proved on its own.
- The rest of the repository (the compiler passes, the confdata statistics reporter, the test inputs) is not allocator logic and is not modelled.
