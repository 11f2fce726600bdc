/**
 * The size-class table: a request rounded up to the 8-byte alignment has
 * chunk id `size / 8`, and id `k` stands for chunks of exactly `8 * k` bytes.
 * Ids below CHUNK_CLASSES have a free list; larger sizes are huge pieces.
 * Id 0 would be the empty chunk and is never used.
 */
module ChunkSizes {

  const ALIGNMENT: int := 8

  /** Requests of this size and above are served from the huge-piece tree. */
  const MAX_CHUNK_BLOCK_SIZE: int := 16 * 1024

  /** Number of free lists, ids 0 .. CHUNK_CLASSES - 1. */
  const CHUNK_CLASSES: int := MAX_CHUNK_BLOCK_SIZE / ALIGNMENT

  /** A size the allocator hands out or takes back: positive and aligned. */
  predicate IsAlignedSize(size: int) {
    size > 0 && size % ALIGNMENT == 0
  }

  /** An aligned size that has a free list of its own. */
  predicate IsSmallSize(size: int) {
    IsAlignedSize(size) && size < MAX_CHUNK_BLOCK_SIZE
  }

  function ChunkSize(chunkId: int): int {
    chunkId * ALIGNMENT
  }

  /**
   * The class of an aligned size: a real class (never the sentinel 0) whose chunk
   * size is the size itself, and one with a free list exactly for small sizes.
   */
  function ChunkId(size: int): (id: int)
    requires size >= 0
    ensures IsAlignedSize(size) ==> 1 <= id && ChunkSize(id) == size
    ensures IsAlignedSize(size) ==> (id < CHUNK_CLASSES <==> IsSmallSize(size))
  {
    size / ALIGNMENT
  }
}
