/**
 * unsynchronized_pool_resource as an object whose fields the operations
 * update in place: the per-class free lists, the huge-piece tree, the fallback
 * bump region, the arena's own bump region and the statistics.  State() views
 * the fields as a PoolState.  The public operations and the collaborators
 * they call are proved to compute the corresponding function of PoolSpec, so
 * that the lemmas proved there (the invariant kept, the bytes handed out, the
 * defragmentation count) hold of the object too; the draining steps of
 * defragmentation state their effect on the fields and the merging list
 * directly.
 */
module PoolResource {
  import opened Wrappers
  import opened MemoryRegions
  import opened ChunkSizes
  import opened FreeChunkLists
  import opened MonotonicBuffer
  import opened OrderedChunkList
  import opened PoolSpec

  /** The chunk just taken off a free list and not yet handed on, if any. */
  function Popped(slot: Option<int>, size: int): seq<Piece> {
    if slot.Some? then [Piece(slot.value, size)] else []
  }

  /**
   * One list of the draining loop: with the lists before `k` already empty,
   * the chunks of list `k` are the next regions of the drain order, so
   * nothing is lost or reordered when they are handed to the merging list.
   */
  lemma DrainList(lists: seq<seq<int>>, k: nat)
    requires k < |lists| && forall j :: 0 <= j < k ==> lists[j] == []
    ensures ChunkRegions(lists, 0) == Chunks(lists[k], ChunkSize(k)) + ChunkRegions(lists[k := []], 0)
  {
    var emptied := lists[k := []];
    ChunkRegionsSkip(lists, 0, k);
    ChunkRegionsSkip(emptied, 0, k);
    ChunkRegionsFrame(lists, emptied, k + 1);
    assert Chunks(emptied[k], ChunkSize(k)) == [];
  }

  /** The redistribution loop's step: one more merged region put back. */
  lemma PutBackAllNext(s: PoolState, rs: seq<Piece>, i: int)
    requires Positive(rs) && 0 <= i < |rs|
    ensures forall p :: p in rs[..i] ==> p.size >= 0
    ensures forall p :: p in rs[..i + 1] ==> p.size >= 0
    ensures PutBackAll(s, rs[..i + 1]) == PutBack(PutBackAll(s, rs[..i]), rs[i].addr, rs[i].size)
  {
    assert rs[..i + 1][..i] == rs[..i];
    assert forall p :: p in rs[..i + 1] ==> p in rs;
  }

  /**
   * Proof step for the slow path method, not a property of its own: how the
   * outcome of AllocateSmallFromFallback follows its steps: a fallback hit is the
   * result; after a miss the state is unchanged, and the smallest huge piece,
   * if any, refills the fallback; with no huge piece either, the fallback
   * was too small and the huge tree empty.
   */
  lemma SlowPathSteps(s: PoolState, size: int)
    requires s.Consistent() && IsSmallSize(size)
    ensures var (m1, s1) := FallbackGet(s, size);
      && (m1.Some? ==> AllocateSmallFromFallback(s, size) == (m1, s1))
      && (m1.None? ==> s1 == s)
    ensures var (m1, s1) := FallbackGet(s, size); var (p, s2) := ExtractBestFit(s, 0);
      && (m1.None? && p.Some? ==> AllocateSmallFromFallback(s, size) == RefillAndGet(s2, p, size) && p.value.size >= 0)
      && (m1.None? && p.None? ==> s2 == s && size > s.fallback.Size() && s.huge == [])
  {
    var (p, s2) := ExtractBestFit(s, 0);
    if p.Some? {
      assert p.value in s.huge;
    }
  }

  /** Proof step, as SlowPathSteps, for the retry after defragmentation. */
  lemma RetrySteps(d: PoolState, size: int)
    requires d.Consistent() && IsSmallSize(size)
    ensures var (m1, d1) := TryAllocateSmall(d, size);
      && (m1.Some? ==> RetryAfterDefragmentation(d, size) == (m1, d1))
      && (m1.None? ==> d1 == d)
    ensures var (m1, d1) := TryAllocateSmall(d, size); var (p, d2) := ExtractBestFit(d, 0);
      && (m1.None? ==> RetryAfterDefragmentation(d, size) == RefillAndGet(d2, p, size))
      && (p.Some? ==> p.value.size >= 0)
  {
    var (p, d2) := ExtractBestFit(d, 0);
    if p.Some? {
      assert p.value in d.huge;
    }
  }

  class UnsynchronizedPoolResource {
    /** `free_chunks_`: list k holds the offsets of free chunks of ChunkSize(k) bytes, head first. */
    const freeChunks: array<seq<int>>
    /** `huge_pieces_`: the free regions too large for a class. */
    var hugePieces: seq<Piece>
    /** `fallback_resource_`: the bump region carved out of one huge piece. */
    var fallbackResource: BumpRegion
    /** The monotonic_buffer_resource base: the whole arena and its bump cursor. */
    var pool: BumpRegion
    /** `stats_`. */
    var stats: MemoryStats

    /** The fields as a value. */
    function State(): (s: PoolState)
      reads this, freeChunks
      ensures |s.lists| == freeChunks.Length
    {
      PoolState(freeChunks[..], hugePieces, fallbackResource, pool, stats)
    }

    /** The allocator's invariant, PoolState.Consistent, holds of the fields. */
    ghost predicate Valid()
      reads this, freeChunks
    {
      State().Consistent()
    }

    /** A resource over an empty arena, with nothing free. */
    constructor ()
      ensures Valid() && fresh(freeChunks)
      ensures State().Regions() == [] && State().Available() == {}
    {
      freeChunks := new seq<int>[CHUNK_CLASSES](_ => []);
      hugePieces := [];
      fallbackResource := BumpRegion(0, 0, 0);
      pool := BumpRegion(0, 0, 0);
      stats := ZERO_STATS;
      new;
      assert forall k :: 0 <= k < CHUNK_CLASSES ==> freeChunks[..][k] == [];
      EmptiedKeeps(State());
    }

    /**
     * `init(buffer, buffer_size)`: the arena restarts over the buffer, and the
     * tree, the fallback region and every free list are emptied.
     */
    method Init(buffer: int, bufferSize: int)
      requires bufferSize >= 0 && freeChunks.Length == CHUNK_CLASSES
      modifies this, freeChunks
      ensures State() == PoolSpec.Init(old(State()), buffer, bufferSize)
      ensures Valid() && State().Available() == Span(buffer, buffer + bufferSize)
    {
      ghost var s0 := State();
      pool := InitRegion(buffer, bufferSize);
      stats := ZERO_STATS;
      hugePieces := [];
      fallbackResource := BumpRegion(0, 0, 0);
      for k := 0 to freeChunks.Length
        modifies freeChunks
        invariant forall j :: 0 <= j < k ==> freeChunks[j] == []
      {
        freeChunks[k] := [];
      }
      ghost var t := PoolSpec.Init(s0, buffer, bufferSize);
      assert freeChunks[..] == t.lists;
      assert State() == t;
      InitKeeps(s0, buffer, bufferSize);
    }

    /**
     * `put_memory_back(mem, size)`: onto the free list of the size's chunk id
     * when there is one, else into the tree, counting the piece.
     */
    method PutMemoryBack(mem: int, size: int)
      requires size >= 0
      modifies this, freeChunks
      ensures State() == PutBack(old(State()), mem, size)
    {
      var chunkId := ChunkId(size);
      if chunkId < freeChunks.Length {
        freeChunks[chunkId] := [mem] + freeChunks[chunkId];
        stats := stats.(smallMemoryPieces := stats.smallMemoryPieces + 1);
      } else {
        hugePieces := hugePieces + [Piece(mem, size)];
        stats := stats.(hugeMemoryPieces := stats.hugeMemoryPieces + 1);
      }
    }

    /** The head of free list `chunkId` taken off, or None when it is empty. */
    method PopFreeChunk(chunkId: int) returns (slot: Option<int>)
      requires 0 <= chunkId < freeChunks.Length
      modifies freeChunks
      ensures var slots := old(freeChunks[chunkId]);
        && (slot.None? <==> slots == [])
        && (slot.Some? ==> slot.value == slots[0] && freeChunks[..] == old(freeChunks[..])[chunkId := slots[1..]])
        && (slot.None? ==> freeChunks[..] == old(freeChunks[..]))
    {
      if freeChunks[chunkId] == [] {
        slot := None;
      } else {
        slot := Some(freeChunks[chunkId][0]);
        freeChunks[chunkId] := freeChunks[chunkId][1..];
      }
    }

    /**
     * The tree's `extract(minSize)`, and with `minSize` 0 `extract_smallest()`:
     * a smallest piece of at least `minSize` bytes leaves the tree.
     */
    method ExtractHugePiece(minSize: int) returns (piece: Option<Piece>)
      modifies this`hugePieces
      ensures (piece, State()) == ExtractBestFit(old(State()), minSize)
    {
      var k := BestFit(hugePieces, minSize);
      if k < 0 {
        piece := None;
      } else {
        piece := Some(hugePieces[k]);
        hugePieces := hugePieces[..k] + hugePieces[k + 1..];
      }
    }

    /** `fallback_resource_.get_from_pool(size)`. */
    method GetFromFallback(size: int) returns (mem: Option<int>)
      requires fallbackResource.Valid() && size >= 0
      modifies this`fallbackResource
      ensures (mem, State()) == FallbackGet(old(State()), size)
    {
      if size <= fallbackResource.end - fallbackResource.current {
        mem := Some(fallbackResource.current);
        fallbackResource := fallbackResource.(current := fallbackResource.current + size);
      } else {
        mem := None;
      }
    }

    /** The base resource's `get_from_pool(size)`: a bump of the arena cursor. */
    method GetFromPool(size: int) returns (mem: Option<int>)
      requires pool.Valid() && size >= 0
      modifies this`pool
      ensures (mem, State()) == PoolGet(old(State()), size)
    {
      if size <= pool.end - pool.current {
        mem := Some(pool.current);
        pool := pool.(current := pool.current + size);
      } else {
        mem := None;
      }
    }

    /** `try_allocate_small_piece(size)`: the size's free list, else the arena. */
    method TryAllocateSmallPiece(size: int) returns (mem: Option<int>)
      requires pool.Valid() && size >= 0 && ChunkId(size) < freeChunks.Length
      modifies this, freeChunks
      ensures (mem, State()) == TryAllocateSmall(old(State()), size)
    {
      mem := PopFreeChunk(ChunkId(size));
      if mem.Some? {
        stats := stats.(smallMemoryPieces := stats.smallMemoryPieces - 1);
      } else {
        mem := GetFromPool(size);
      }
    }

    /**
     * `allocate_huge_piece(size, safe)`: the front of a best-fitting piece of
     * the tree, whose tail is put back, else a fresh block of the arena.
     */
    method AllocateHugePiece(size: int) returns (mem: Option<int>)
      requires pool.Valid() && size >= 0
      modifies this, freeChunks
      ensures (mem, State()) == AllocateHuge(old(State()), size)
    {
      ghost var s0 := State();
      var piece := ExtractHugePiece(size);
      if piece.Some? {
        stats := stats.(hugeMemoryPieces := stats.hugeMemoryPieces - 1);
        var left := piece.value.size - size;
        if left != 0 {
          PutMemoryBack(piece.value.addr + size, left);
        }
        mem := Some(piece.value.addr);
      } else {
        mem := GetFromPool(size);
      }
    }

    /** The tree's `flush_to(mem_list)`: every huge piece handed to the merging list, the tree emptied. */
    method FlushHugePiecesTo(memList: MemoryOrderedChunkList)
      modifies this`hugePieces, memList
      ensures memList.pending == old(memList.pending) + old(hugePieces) && hugePieces == []
    {
      for i := 0 to |hugePieces|
        modifies memList
        invariant memList.pending == old(memList.pending) + hugePieces[..i]
      {
        memList.AddMemory(hugePieces[i].addr, hugePieces[i].size);
      }
      assert hugePieces[..|hugePieces|] == hugePieces;
      hugePieces := [];
    }

    /**
     * Lines 23-36 of perform_defragmentation: the tree, then the fallback
     * remainder, then every free list from chunk id 1 up are drained into the
     * merging list, in the order Drained lists them; the fallback is reset and
     * every structure is left empty.
     */
    method DrainTo(memList: MemoryOrderedChunkList)
      requires freeChunks.Length > 0 && freeChunks[0] == [] && fallbackResource.Valid()
      modifies this`hugePieces, this`fallbackResource, freeChunks, memList
      ensures memList.pending == old(memList.pending) + Drained(old(State()))
      ensures hugePieces == [] && fallbackResource == Cleared(old(State())).fallback
      ensures forall k :: 0 <= k < freeChunks.Length ==> freeChunks[k] == []
    {
      ghost var s0 := State();
      FlushHugePiecesTo(memList);
      var fallbackLeft := fallbackResource.Size();
      if fallbackLeft != 0 {
        memList.AddMemory(fallbackResource.current, fallbackLeft);
        fallbackResource := InitRegion(0, 0);
      }
      assert memList.pending == old(memList.pending) + s0.huge + FallbackPieces(s0.fallback);
      assert freeChunks[..] == s0.lists;
      // chunk id 0 is never used, so its list is always empty
      DrainFreeChunksTo(memList);
    }

    /**
     * Lines 31-36 of perform_defragmentation: every free list from chunk id 1
     * up is drained in turn; the regions go in the order ChunkRegions lists them.
     */
    method DrainFreeChunksTo(memList: MemoryOrderedChunkList)
      requires freeChunks.Length > 0 && freeChunks[0] == []
      modifies freeChunks, memList
      ensures memList.pending == old(memList.pending) + ChunkRegions(old(freeChunks[..]), 0)
      ensures forall k :: 0 <= k < freeChunks.Length ==> freeChunks[k] == []
    {
      ghost var drained := memList.pending + ChunkRegions(freeChunks[..], 0);
      for chunkId := 1 to freeChunks.Length
        invariant memList.pending + ChunkRegions(freeChunks[..], 0) == drained
        invariant forall j :: 0 <= j < chunkId ==> freeChunks[j] == []
      {
        ghost var lists := freeChunks[..];
        DrainFreeListTo(chunkId, memList);
        DrainList(lists, chunkId);
      }
      ChunkRegionsEmpty(freeChunks[..], 0);
    }

    /**
     * Lines 32-35: free list `chunkId` is popped until the pop finds it empty,
     * each chunk handed to the merging list with the class's chunk size.
     */
    method DrainFreeListTo(chunkId: int, memList: MemoryOrderedChunkList)
      requires 0 <= chunkId < freeChunks.Length
      modifies freeChunks, memList
      ensures memList.pending == old(memList.pending) + Chunks(old(freeChunks[chunkId]), ChunkSize(chunkId))
      ensures freeChunks[..] == old(freeChunks[..])[chunkId := []]
    {
      var chunkSize := ChunkSize(chunkId);
      ghost var drained := memList.pending + Chunks(freeChunks[chunkId], chunkSize);
      var slot := PopFreeChunk(chunkId);
      while slot.Some?
        invariant memList.pending + Popped(slot, chunkSize) + Chunks(freeChunks[chunkId], chunkSize) == drained
        invariant freeChunks[..] == old(freeChunks[..])[chunkId := freeChunks[chunkId]]
        invariant slot.None? ==> freeChunks[chunkId] == []
        decreases |freeChunks[chunkId]| + (if slot.Some? then 1 else 0)
      {
        memList.AddMemory(slot.value, chunkSize);
        ghost var slots := freeChunks[chunkId];
        slot := PopFreeChunk(chunkId);
        assert slot.Some? ==> slots == [slot.value] + slots[1..];
      }
    }

    /**
     * Lines 40-44 of perform_defragmentation: walking the merged list from
     * its first node, each region is put back before stepping to the next.
     */
    method PutBackMerged(merged: seq<Piece>)
      requires Positive(merged)
      modifies this, freeChunks
      ensures forall p :: p in merged ==> p.size >= 0
      ensures State() == PutBackAll(old(State()), merged)
    {
      ghost var s0 := State();
      var i := 0;
      while i < |merged|
        invariant 0 <= i <= |merged|
        invariant State() == PutBackAll(s0, merged[..i])
      {
        PutBackAllNext(s0, merged, i);
        PutMemoryBack(merged[i].addr, merged[i].size);
        i := i + 1;
      }
      assert merged[..|merged|] == merged;
    }

    /**
     * `perform_defragmentation()`: the tree, the fallback remainder and every
     * free list from chunk id 1 up are drained into the merging list; with
     * both piece counters zeroed, every merged region is put back in address
     * order; the defragmentation is counted.
     */
    method PerformDefragmentation()
      requires Valid()
      modifies this, freeChunks
      ensures State() == Defragmented(old(State()))
      ensures Valid() && State().FreeSet() == old(State().FreeSet()) && State().Available() == old(State().Available())
      ensures NoTouching(State().Regions())
    {
      ghost var s0 := State();
      var memList := new MemoryOrderedChunkList(pool.begin);
      DrainTo(memList);
      assert memList.pending == Drained(s0);

      stats := stats.(smallMemoryPieces := 0, hugeMemoryPieces := 0);
      ghost var cleared := State();
      assert cleared == Cleared(s0) by {
        assert freeChunks[..] == Cleared(s0).lists;
      }
      var merged := memList.Flush();
      assert merged == Coalesced(s0);
      assert Positive(merged);
      PutBackMerged(merged);

      UpdateDefragmentationStats();
      DefragKeeps(s0);
    }

    /** Lines 47-48 of perform_defragmentation: the statistics updated, the defragmentation counted. */
    method UpdateDefragmentationStats()
      modifies this`stats
      ensures State() == CountDefragmentation(old(State()))
    {
      stats := stats.RegisterDeallocation(0);
      stats := stats.(defragmentationCalls := stats.defragmentationCalls + 1);
    }

    /**
     * `allocate_small_piece_from_fallback_resource(aligned_size)`: the
     * fallback region; else the smallest huge piece becomes the fallback
     * region, its old remainder put back; when the tree is empty, one
     * defragmentation, a retry of the free list and the arena, and one more
     * extraction of the smallest huge piece.
     */
    method AllocateSmallPieceFromFallbackResource(alignedSize: int) returns (mem: Option<int>)
      requires Valid() && IsSmallSize(alignedSize)
      modifies this, freeChunks
      ensures (mem, State()) == AllocateSmallFromFallback(old(State()), alignedSize)
      ensures Valid() && Taken(old(State().Available()), State().Available(), mem, alignedSize)
    {
      ghost var s0 := State();
      SlowPathSteps(s0, alignedSize);
      mem := GetFromFallback(alignedSize);
      if mem.Some? {
        AllocateSmallFromFallbackKeeps(s0, alignedSize);
        return;
      }
      var smallestHugePiece := ExtractHugePiece(0);
      if smallestHugePiece.None? {
        AllocateSmallFromFallbackRetry(s0, alignedSize);
        PerformDefragmentation();
        ghost var d := State();
        RetrySteps(d, alignedSize);
        mem := TryAllocateSmallPiece(alignedSize);
        if mem.Some? {
          AllocateSmallFromFallbackKeeps(s0, alignedSize);
          return;
        }
        smallestHugePiece := ExtractHugePiece(0);
      }
      if smallestHugePiece.Some? {
        RefillFallback(smallestHugePiece.value);
      }
      mem := GetFromFallback(alignedSize);
      AllocateSmallFromFallbackKeeps(s0, alignedSize);
    }

    /**
     * Lines 66-70 of the slow path: one huge piece fewer, the fallback
     * remainder (if any) put back, and the fallback restarted over the whole
     * extracted piece.
     */
    method RefillFallback(piece: Piece)
      requires fallbackResource.Valid() && piece.size >= 0
      modifies this, freeChunks
      ensures State() == Refill(old(State()), piece)
    {
      stats := stats.(hugeMemoryPieces := stats.hugeMemoryPieces - 1);
      var fallbackLeft := fallbackResource.Size();
      if fallbackLeft != 0 {
        PutMemoryBack(fallbackResource.current, fallbackLeft);
      }
      fallbackResource := InitRegion(piece.addr, piece.size);
    }

    /**
     * `perform_defragmentation_and_allocate_huge_piece(aligned_size)`: one
     * defragmentation, then exactly one more huge allocation.
     */
    method PerformDefragmentationAndAllocateHugePiece(alignedSize: int) returns (mem: Option<int>)
      requires Valid() && IsAlignedSize(alignedSize)
      modifies this, freeChunks
      ensures (mem, State()) == DefragmentAndAllocateHuge(old(State()), alignedSize)
      ensures Valid() && Taken(old(State().Available()), State().Available(), mem, alignedSize)
    {
      ghost var s0 := State();
      PerformDefragmentation();
      mem := AllocateHugePiece(alignedSize);
      DefragmentAndAllocateHugeKeeps(s0, alignedSize);
    }
  }
}
