/**
 * The bump allocator (monotonic_buffer_resource) that both the pool itself
 * and its fallback resource are built on: a region [begin, end) of which the
 * prefix up to `current` has been handed out.
 */
module MonotonicBuffer {
  import opened Wrappers
  import opened MemoryRegions

  datatype BumpRegion = BumpRegion(begin: int, current: int, end: int) {

    predicate Valid() {
      begin <= current <= end
    }

    /** `size()`: bytes not yet handed out. */
    function Size(): int {
      end - current
    }

    /** The offsets not yet handed out. */
    function Remaining(): set<int> {
      Span(current, end)
    }

    /**
     * `get_from_pool(size)`: the next `size` bytes, or None when fewer remain.
     * What is handed out and what remains afterwards split the old remainder.
     */
    function GetFromPool(size: int): (r: (Option<int>, BumpRegion))
      requires Valid() && size >= 0
      ensures r.1.Valid() && r.1.begin == begin && r.1.end == end
      ensures r.0.Some? <==> size <= Size()
      ensures r.0.None? ==> r.1 == this
      ensures r.0.Some? ==> r.0.value == current && r.1.Size() == Size() - size
      ensures r.0.Some? ==> Span(current, current + size) + r.1.Remaining() == Remaining()
      ensures r.0.Some? ==> Span(current, current + size) !! r.1.Remaining()
    {
      if size <= end - current then
        (Some(current), BumpRegion(begin, current + size, end))
      else
        (None, this)
    }
  }

  /** `init(buffer, size)`: nothing handed out yet, `size` bytes available from `buffer` on. */
  function InitRegion(buffer: int, size: int): (b: BumpRegion)
    requires size >= 0
    ensures b.Valid() && b.begin == b.current == buffer && b.Size() == size
    ensures b.Remaining() == Span(buffer, buffer + size)
  {
    BumpRegion(buffer, buffer, buffer + size)
  }
}
