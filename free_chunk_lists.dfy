/**
 * The array of per-class free lists.  List `k` holds the offsets of free
 * chunks of ChunkSize(k) bytes, most recently freed first (push and pop at the
 * head).  ChunkRegions views lists lo, lo + 1, ... as one sequence of regions.
 */
module FreeChunkLists {
  import opened MemoryRegions
  import opened ChunkSizes

  /** The regions of one list whose chunks are all `size` bytes. */
  function Chunks(slots: seq<int>, size: int): (r: seq<Piece>)
    ensures |r| == |slots|
  {
    if slots == [] then [] else [Piece(slots[0], size)] + Chunks(slots[1..], size)
  }

  lemma {:induction false} ChunkAt(slots: seq<int>, size: int, i: int)
    requires 0 <= i < |slots|
    ensures Chunks(slots, size)[i] == Piece(slots[i], size)
  {
    if i > 0 {
      ChunkAt(slots[1..], size, i - 1);
    }
  }

  /** The regions of lists lo, lo + 1, ..., |lists| - 1, in that order. */
  function ChunkRegions(lists: seq<seq<int>>, lo: nat): seq<Piece>
    decreases |lists| - lo
  {
    if lo >= |lists| then [] else Chunks(lists[lo], ChunkSize(lo)) + ChunkRegions(lists, lo + 1)
  }

  /** The regions only depend on the lists from `lo` on. */
  lemma {:induction false} ChunkRegionsFrame(a: seq<seq<int>>, b: seq<seq<int>>, lo: nat)
    requires |a| == |b|
    requires forall j :: lo <= j < |a| ==> a[j] == b[j]
    ensures ChunkRegions(a, lo) == ChunkRegions(b, lo)
    decreases |a| - lo
  {
    if lo < |a| {
      ChunkRegionsFrame(a, b, lo + 1);
    }
  }

  /** Pushing a slot on list `k` adds exactly one chunk of ChunkSize(k) bytes. */
  lemma {:induction false} ChunkRegionsPush(lists: seq<seq<int>>, lo: nat, k: int, slot: int)
    requires lo <= k < |lists|
    ensures multiset(ChunkRegions(lists[k := [slot] + lists[k]], lo))
         == multiset(ChunkRegions(lists, lo)) + multiset{Piece(slot, ChunkSize(k))}
    decreases |lists| - lo
  {
    if lo == k {
      PushHere(lists, k, slot);
      var chunk, r := Piece(slot, ChunkSize(k)), ChunkRegions(lists, k);
      assert multiset([chunk] + r) == multiset{chunk} + multiset(r);
    } else {
      ChunkRegionsPush(lists, lo + 1, k, slot);
      assert lo < k < |lists|;
      assert multiset(ChunkRegions(lists[k := [slot] + lists[k]], lo + 1))
          == multiset(ChunkRegions(lists, lo + 1)) + multiset{Piece(slot, ChunkSize(k))};
      PushBelow(lists, lo, k, slot);
    }
  }

  /** The step of ChunkRegionsPush for a list before the one pushed on. */
  lemma PushBelow(lists: seq<seq<int>>, lo: nat, k: int, slot: int)
    requires lo < k < |lists|
    requires multiset(ChunkRegions(lists[k := [slot] + lists[k]], lo + 1))
          == multiset(ChunkRegions(lists, lo + 1)) + multiset{Piece(slot, ChunkSize(k))}
    ensures multiset(ChunkRegions(lists[k := [slot] + lists[k]], lo))
         == multiset(ChunkRegions(lists, lo)) + multiset{Piece(slot, ChunkSize(k))}
  {
    var pushed := lists[k := [slot] + lists[k]];
    var c := Chunks(lists[lo], ChunkSize(lo));
    var r, rp := ChunkRegions(lists, lo + 1), ChunkRegions(pushed, lo + 1);
    assert pushed[lo] == lists[lo];
    assert ChunkRegions(pushed, lo) == c + rp;
    assert ChunkRegions(lists, lo) == c + r;
    assert multiset(c + rp) == multiset(c) + multiset(rp);
    assert multiset(c + r) == multiset(c) + multiset(r);
  }

  lemma PushHere(lists: seq<seq<int>>, k: nat, slot: int)
    requires k < |lists|
    ensures ChunkRegions(lists[k := [slot] + lists[k]], k)
         == [Piece(slot, ChunkSize(k))] + ChunkRegions(lists, k)
  {
    var pushed := lists[k := [slot] + lists[k]];
    ChunkRegionsFrame(pushed, lists, k + 1);
    var c := Chunks(lists[k], ChunkSize(k));
    assert ([slot] + lists[k])[1..] == lists[k];
    assert Chunks(pushed[k], ChunkSize(k)) == [Piece(slot, ChunkSize(k))] + c;
    assert ChunkRegions(pushed, k) == Chunks(pushed[k], ChunkSize(k)) + ChunkRegions(pushed, k + 1);
    assert ChunkRegions(lists, k) == c + ChunkRegions(lists, k + 1);
  }

  /** Taking the head of a non-empty list `k` removes exactly that chunk. */
  lemma ChunkRegionsPop(lists: seq<seq<int>>, k: int)
    requires 0 <= k < |lists| && lists[k] != []
    ensures multiset(ChunkRegions(lists, 0))
         == multiset(ChunkRegions(lists[k := lists[k][1..]], 0)) + multiset{Piece(lists[k][0], ChunkSize(k))}
  {
    var popped := lists[k := lists[k][1..]];
    ChunkRegionsPush(popped, 0, k, lists[k][0]);
    assert lists[k] == [lists[k][0]] + lists[k][1..];
    assert popped[k := [lists[k][0]] + popped[k]] == lists;
  }

  /** With every list empty there are no free chunks. */
  lemma {:induction false} ChunkRegionsEmpty(lists: seq<seq<int>>, lo: nat)
    requires forall j :: lo <= j < |lists| ==> lists[j] == []
    ensures ChunkRegions(lists, lo) == []
    decreases |lists| - lo
  {
    if lo < |lists| {
      ChunkRegionsEmpty(lists, lo + 1);
    }
  }

  /** Every region of list `k` is a chunk of ChunkSize(k) bytes. */
  lemma {:induction false} ChunkRegionsSizes(lists: seq<seq<int>>, lo: nat)
    requires lo >= 1 || (lo == 0 && (|lists| > 0 ==> lists[0] == []))
    ensures Granular(ChunkRegions(lists, lo))
    decreases |lists| - lo
  {
    if lo < |lists| {
      ChunkRegionsSizes(lists, lo + 1);
      var c := Chunks(lists[lo], ChunkSize(lo));
      var r := ChunkRegions(lists, lo + 1);
      assert ChunkRegions(lists, lo) == c + r;
      forall p: Piece | p in c + r ensures p.size > 0 && p.size % ALIGNMENT == 0 {
        if p in c {
          var i :| 0 <= i < |c| && c[i] == p;
          ChunkAt(lists[lo], ChunkSize(lo), i);
        }
      }
    }
  }

  /** Lists that are all empty contribute nothing: the view may start past them. */
  lemma {:induction false} ChunkRegionsSkip(lists: seq<seq<int>>, lo: nat, k: nat)
    requires lo <= k <= |lists|
    requires forall j :: lo <= j < k ==> lists[j] == []
    ensures ChunkRegions(lists, lo) == ChunkRegions(lists, k)
    decreases k - lo
  {
    if lo < k {
      ChunkRegionsSkip(lists, lo + 1, k);
      assert Chunks(lists[lo], ChunkSize(lo)) == [];
    }
  }
}
