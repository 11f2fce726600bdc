/**
 * The address-ordered merging list used by defragmentation
 * (details::memory_ordered_chunk_list): regions are added in any order;
 * flushing yields them sorted by address with every two exactly adjacent
 * regions joined into one.
 */
module OrderedChunkList {
  import opened MemoryRegions
  import opened ChunkSizes

  predicate SortedByAddress(s: seq<Piece>) {
    forall i, j :: 0 <= i < j < |s| ==> s[i].addr <= s[j].addr
  }

  /** In address order, each region ending at or before the next one starts. */
  predicate Separated(s: seq<Piece>) {
    forall i, j :: 0 <= i < j < |s| ==> s[i].addr + s[i].size <= s[j].addr
  }

  /** In address order with a gap after each region: no two regions overlap or touch. */
  predicate FullyMerged(s: seq<Piece>) {
    forall i, j :: 0 <= i < j < |s| ==> s[i].addr + s[i].size < s[j].addr
  }

  /** Inserts `p` before the first region that does not start below it. */
  function Insert(p: Piece, s: seq<Piece>): seq<Piece> {
    if s == [] then [p]
    else if p.addr <= s[0].addr then [p] + s
    else [s[0]] + Insert(p, s[1..])
  }

  /** A region followed by sorted regions none of which starts below it is sorted. */
  lemma ConsSorted(h: Piece, u: seq<Piece>)
    requires SortedByAddress(u) && forall q :: q in u ==> h.addr <= q.addr
    ensures SortedByAddress([h] + u)
  {
    var r := [h] + u;
    forall i, j | 0 <= i < j < |r| ensures r[i].addr <= r[j].addr {
      assert r[j] == u[j - 1] && r[j] in u;
      if i > 0 {
        assert r[i] == u[i - 1];
      }
    }
  }

  lemma SortedTail(s: seq<Piece>)
    requires SortedByAddress(s) && |s| > 0
    ensures SortedByAddress(s[1..])
    ensures forall q :: q in s ==> s[0].addr <= q.addr
  {
    var t := s[1..];
    forall i, j | 0 <= i < j < |t| ensures t[i].addr <= t[j].addr {
      assert t[i] == s[i + 1] && t[j] == s[j + 1];
    }
    forall q | q in s ensures s[0].addr <= q.addr {
      var k :| 0 <= k < |s| && s[k] == q;
    }
  }

  lemma {:induction false} InsertProperties(p: Piece, s: seq<Piece>)
    requires SortedByAddress(s)
    ensures SortedByAddress(Insert(p, s))
    ensures multiset(Insert(p, s)) == multiset(s) + multiset{p}
  {
    if s == [] {
    } else if p.addr <= s[0].addr {
      SortedTail(s);
      ConsSorted(p, s);
    } else {
      var t := s[1..];
      assert s == [s[0]] + t;
      SortedTail(s);
      InsertProperties(p, t);
      var rest := Insert(p, t);
      StartsAfter(s[0], p, t, rest);
      ConsSorted(s[0], rest);
    }
  }

  /** Everything in `rest`, a reordering of `t` and `p`, starts no lower than `h`. */
  lemma StartsAfter(h: Piece, p: Piece, t: seq<Piece>, rest: seq<Piece>)
    requires multiset(rest) == multiset(t) + multiset{p}
    requires h.addr <= p.addr && forall q :: q in t ==> h.addr <= q.addr
    ensures forall q :: q in rest ==> h.addr <= q.addr
  {
    forall q | q in rest ensures h.addr <= q.addr {
      assert q in multiset(rest);
      assert q == p || q in multiset(t);
    }
  }

  /** Insertion sort by address: the same regions, in address order. */
  function SortByAddress(s: seq<Piece>): (r: seq<Piece>)
    ensures SortedByAddress(r)
    ensures multiset(r) == multiset(s)
  {
    if s == [] then []
    else
      var sorted := SortByAddress(s[1..]);
      InsertProperties(s[0], sorted);
      assert s == [s[0]] + s[1..];
      Insert(s[0], sorted)
  }

  /**
   * Joins every region with the next one when it ends exactly where the next
   * one starts.  The first region keeps its start address.
   */
  function Merge(s: seq<Piece>): (r: seq<Piece>)
    ensures |r| <= |s|
    ensures |s| > 0 ==> |r| > 0 && r[0].addr == s[0].addr
  {
    if |s| <= 1 then s
    else
      var rest := Merge(s[1..]);
      if s[0].addr + s[0].size == rest[0].addr then
        [Piece(s[0].addr, s[0].size + rest[0].size)] + rest[1..]
      else
        [s[0]] + rest
  }

  lemma {:induction false} MergeSum(s: seq<Piece>)
    ensures Sum(Merge(s)) == Sum(s)
  {
    if |s| > 1 {
      MergeSum(s[1..]);
      var rest := Merge(s[1..]);
      assert rest == [rest[0]] + rest[1..];
      SumConcat([rest[0]], rest[1..]);
      assert [rest[0]][1..] == [];
    }
  }

  /** Two exactly adjacent regions occupy the bytes of their join. */
  lemma JoinBytes(a: Piece, b: Piece)
    requires a.size >= 0 && b.size >= 0 && a.addr + a.size == b.addr
    ensures Bytes(Piece(a.addr, a.size + b.size)) == Bytes(a) + Bytes(b)
  {
  }

  lemma {:induction false} MergeCovered(s: seq<Piece>)
    requires Positive(s)
    ensures Covered(Merge(s)) == Covered(s)
  {
    if |s| > 1 {
      assert forall q :: q in s[1..] ==> q in s;
      assert s[0] in s;
      MergeCovered(s[1..]);
      var rest := Merge(s[1..]);
      assert rest == [rest[0]] + rest[1..];
      CoveredConcat([rest[0]], rest[1..]);
      assert [rest[0]][1..] == [];
      if s[0].addr + s[0].size == rest[0].addr {
        MergeSizes(s[1..]);
        assert rest[0] in rest;
        JoinBytes(s[0], rest[0]);
      }
    }
  }

  /** Joined regions are non-empty and, when all inputs are aligned sizes, so are they. */
  lemma {:induction false} MergeSizes(s: seq<Piece>)
    requires Positive(s)
    ensures Positive(Merge(s))
    ensures Granular(s) ==> Granular(Merge(s))
  {
    if |s| > 1 {
      var t := s[1..];
      PositiveTail(s);
      MergeSizes(t);
      var rest := Merge(t);
      if Granular(s) {
        GranularTail(s);
      }
      if s[0].addr + s[0].size == rest[0].addr {
        JoinedSizes(s[0], rest);
      } else {
        ConsSizes(s[0], rest);
      }
    }
  }

  lemma GranularTail(s: seq<Piece>)
    requires Granular(s) && |s| > 0
    ensures Granular(s[1..]) && IsAlignedSize(s[0].size)
  {
    assert s[0] in s;
    forall q | q in s[1..] ensures IsAlignedSize(q.size) {
      assert q in s;
    }
  }

  /** A region in front of regions with good sizes. */
  lemma ConsSizes(h: Piece, rest: seq<Piece>)
    requires Positive(rest) && h.size > 0
    ensures Positive([h] + rest)
    ensures Granular(rest) && IsAlignedSize(h.size) ==> Granular([h] + rest)
  {
    forall q | q in [h] + rest ensures q == h || q in rest {
    }
  }

  /** A region joined with the first of regions with good sizes. */
  lemma JoinedSizes(h: Piece, rest: seq<Piece>)
    requires Positive(rest) && |rest| > 0 && h.size > 0
    ensures var r := [Piece(h.addr, h.size + rest[0].size)] + rest[1..];
      Positive(r) && (Granular(rest) && IsAlignedSize(h.size) ==> Granular(r))
  {
    assert rest[0] in rest;
    forall q | q in rest[1..] ensures q in rest {
    }
  }

  /** A region with a gap before every later one, followed by fully merged regions. */
  lemma ConsFullyMerged(h: Piece, u: seq<Piece>)
    requires FullyMerged(u) && forall q :: q in u ==> h.addr + h.size < q.addr
    ensures FullyMerged([h] + u)
  {
    var r := [h] + u;
    forall i, j | 0 <= i < j < |r| ensures r[i].addr + r[i].size < r[j].addr {
      assert r[j] == u[j - 1] && r[j] in u;
      if i > 0 {
        assert r[i] == u[i - 1];
      }
    }
  }

  lemma SeparatedTail(s: seq<Piece>)
    requires Separated(s) && |s| > 1
    ensures Separated(s[1..]) && s[0].addr + s[0].size <= s[1].addr
  {
    var t := s[1..];
    forall i, j | 0 <= i < j < |t| ensures t[i].addr + t[i].size <= t[j].addr {
      assert t[i] == s[i + 1] && t[j] == s[j + 1];
    }
  }

  lemma FullyMergedTail(r: seq<Piece>)
    requires FullyMerged(r) && |r| > 0
    ensures FullyMerged(r[1..])
    ensures forall q :: q in r[1..] ==> r[0].addr + r[0].size < q.addr
  {
    var tail := r[1..];
    forall i, j | 0 <= i < j < |tail| ensures tail[i].addr + tail[i].size < tail[j].addr {
      assert tail[i] == r[i + 1] && tail[j] == r[j + 1];
    }
    forall q | q in tail ensures r[0].addr + r[0].size < q.addr {
      var k :| 0 <= k < |tail| && tail[k] == q;
      assert r[k + 1] == q;
    }
  }

  lemma PositiveTail(s: seq<Piece>)
    requires Positive(s) && |s| > 0
    ensures Positive(s[1..]) && s[0].size > 0
  {
    assert s[0] in s;
    forall q | q in s[1..] ensures q.size > 0 {
      assert q in s;
    }
  }

  /** Merging separated regions leaves no two that touch. */
  lemma {:induction false} MergeFullyMerged(s: seq<Piece>)
    requires Positive(s) && Separated(s)
    ensures FullyMerged(Merge(s))
  {
    if |s| > 1 {
      var t := s[1..];
      PositiveTail(s);
      SeparatedTail(s);
      MergeFullyMerged(t);
      var rest := Merge(t);
      if s[0].addr + s[0].size == rest[0].addr {
        JoinedGap(s[0], rest);
      } else {
        MergeSizes(t);
        GapBefore(s[0], rest);
      }
    }
  }

  /** A region joined with the first of fully merged regions. */
  lemma JoinedGap(h: Piece, rest: seq<Piece>)
    requires FullyMerged(rest) && |rest| > 0 && h.addr + h.size == rest[0].addr
    ensures FullyMerged([Piece(h.addr, h.size + rest[0].size)] + rest[1..])
  {
    FullyMergedTail(rest);
    ConsFullyMerged(Piece(h.addr, h.size + rest[0].size), rest[1..]);
  }

  /** A region ending before the first of fully merged regions starts. */
  lemma GapBefore(h: Piece, rest: seq<Piece>)
    requires FullyMerged(rest) && Positive(rest) && |rest| > 0 && h.addr + h.size < rest[0].addr
    ensures FullyMerged([h] + rest)
  {
    FullyMergedTail(rest);
    assert rest[0] in rest;
    forall q | q in rest ensures h.addr + h.size < q.addr {
      if q != rest[0] {
        assert q in rest[1..];
      }
    }
    ConsFullyMerged(h, rest);
  }

  /** Sorted regions that cover exactly are pairwise disjoint, hence separated. */
  lemma SortedExactSeparated(s: seq<Piece>)
    requires Positive(s) && SortedByAddress(s) && ExactCover(s)
    ensures Separated(s)
  {
    ExactCoverIffDisjoint(s);
    forall i, j | 0 <= i < j < |s| ensures s[i].addr + s[i].size <= s[j].addr {
      assert s[i] in s && s[j] in s;
      var p, q := s[i], s[j];
      assert q.addr in Bytes(q);
      assert p.addr + p.size > q.addr ==> q.addr in Bytes(p);
    }
  }

  /**
   * What flushing promises: the merged regions cover the same bytes with the
   * same total, no two of them overlap or touch, and their sizes keep the
   * granularity of the regions added.
   */
  lemma FlushProperties(pending: seq<Piece>)
    requires ExactCover(pending) && Granular(pending)
    ensures var merged := Merge(SortByAddress(pending));
      FullyMerged(merged) && ExactCover(merged) && Granular(merged)
      && Covered(merged) == Covered(pending) && Sum(merged) == Sum(pending)
  {
    var sorted := SortByAddress(pending);
    var merged := Merge(sorted);
    PermutationExactCover(pending, sorted);
    PermutationPreserves(pending, sorted);
    assert Positive(sorted);
    SortedExactSeparated(sorted);
    MergeFullyMerged(sorted);
    MergeSum(sorted);
    MergeCovered(sorted);
    MergeSizes(sorted);
  }

  /** The merging list itself: the regions added so far, in the order added. */
  class MemoryOrderedChunkList {
    /** The arena start the list's offsets are relative to. */
    const memoryBegin: int
    var pending: seq<Piece>

    constructor(memoryBegin: int)
      ensures this.memoryBegin == memoryBegin && pending == []
    {
      this.memoryBegin := memoryBegin;
      pending := [];
    }

    /** `add_memory(mem, size)`. */
    method AddMemory(addr: int, size: int)
      modifies this
      ensures pending == old(pending) + [Piece(addr, size)]
    {
      pending := pending + [Piece(addr, size)];
    }

    /**
     * `flush()`, with `get_next` as the step to the following element: the
     * regions sorted by address with exactly adjacent ones joined, so that
     * for disjoint input whose sizes are multiples of 8 bytes no two of them
     * overlap or touch.
     */
    method Flush() returns (merged: seq<Piece>)
      ensures merged == Merge(SortByAddress(pending))
      ensures ExactCover(pending) && Granular(pending) ==>
                FullyMerged(merged) && Covered(merged) == Covered(pending) && Sum(merged) == Sum(pending)
    {
      merged := Merge(SortByAddress(pending));
      if ExactCover(pending) && Granular(pending) {
        FlushProperties(pending);
      }
    }
  }
}
