/**
 * Free regions of the arena, as (offset, size) pairs, and what a collection of
 * them covers.  Every structure of the pool (class lists, huge-piece tree,
 * fallback remainder, merging list) is viewed as a sequence of such regions.
 *
 * The one invariant that ties them together is ExactCover: the sizes add up to
 * the number of offsets covered.  ExactCoverIffDisjoint shows that this is the
 * same as "pairwise disjoint", and PermutationPreserves shows that it does not
 * depend on the order, so it survives moving regions between structures.
 */
module MemoryRegions {
  import opened ChunkSizes

  /** `size` bytes starting at offset `addr`. */
  datatype Piece = Piece(addr: int, size: int)

  /** Any integer names an offset; this gives range comprehensions a term to match on. */
  predicate IsOffset(i: int) {
    true
  }

  /** The offsets lo, lo + 1, ..., hi - 1. */
  function Span(lo: int, hi: int): set<int> {
    set i | IsOffset(i) && lo <= i < hi
  }

  /** The offsets a region occupies. */
  function Bytes(p: Piece): set<int> {
    Span(p.addr, p.addr + p.size)
  }

  /** Total size of the regions, counting overlaps twice. */
  function Sum(s: seq<Piece>): int {
    if s == [] then 0 else s[0].size + Sum(s[1..])
  }

  /** Every offset some region of `s` occupies. */
  function Covered(s: seq<Piece>): set<int> {
    if s == [] then {} else Bytes(s[0]) + Covered(s[1..])
  }

  /** The regions account for exactly the bytes they cover: no byte twice. */
  predicate ExactCover(s: seq<Piece>) {
    Sum(s) == |Covered(s)|
  }

  predicate Positive(s: seq<Piece>) {
    forall p :: p in s ==> p.size > 0
  }

  /** Every region is non-empty and its size a multiple of the alignment. */
  predicate Granular(s: seq<Piece>) {
    forall p :: p in s ==> IsAlignedSize(p.size)
  }

  predicate PairwiseDisjoint(s: seq<Piece>) {
    forall i, j :: 0 <= i < j < |s| ==> Bytes(s[i]) !! Bytes(s[j])
  }

  lemma {:induction false} SpanCard(lo: int, hi: int)
    requires lo <= hi
    ensures |Span(lo, hi)| == hi - lo
    decreases hi - lo
  {
    if lo < hi {
      SpanCard(lo, hi - 1);
      assert Span(lo, hi) == Span(lo, hi - 1) + {hi - 1};
    } else {
      assert Span(lo, hi) == {};
    }
  }

  lemma {:induction false} SumConcat(a: seq<Piece>, b: seq<Piece>)
    ensures Sum(a + b) == Sum(a) + Sum(b)
  {
    if a != [] {
      assert (a + b)[1..] == a[1..] + b;
      SumConcat(a[1..], b);
    } else {
      assert a + b == b;
    }
  }

  lemma {:induction false} CoveredConcat(a: seq<Piece>, b: seq<Piece>)
    ensures Covered(a + b) == Covered(a) + Covered(b)
  {
    if a != [] {
      assert (a + b)[1..] == a[1..] + b;
      CoveredConcat(a[1..], b);
    } else {
      assert a + b == b;
    }
  }

  /** An offset is covered exactly when some region occupies it. */
  lemma {:induction false} CoveredMember(s: seq<Piece>, x: int)
    ensures x in Covered(s) <==> exists i :: 0 <= i < |s| && x in Bytes(s[i])
  {
    if s != [] {
      CoveredMember(s[1..], x);
      if x in Covered(s[1..]) {
        var i :| 0 <= i < |s[1..]| && x in Bytes(s[1..][i]);
        assert x in Bytes(s[i + 1]);
      }
      if exists i :: 0 <= i < |s| && x in Bytes(s[i]) {
        var i :| 0 <= i < |s| && x in Bytes(s[i]);
        if i > 0 {
          assert x in Bytes(s[1..][i - 1]);
        }
      }
    }
  }

  lemma BytesInCovered(s: seq<Piece>, i: int)
    requires 0 <= i < |s|
    ensures Bytes(s[i]) <= Covered(s)
  {
    forall x | x in Bytes(s[i]) ensures x in Covered(s) {
      CoveredMember(s, x);
    }
  }

  /** Sizes bound what is covered: double-counting can only add. */
  lemma {:induction false} Subadditive(s: seq<Piece>)
    requires Positive(s)
    ensures |Covered(s)| <= Sum(s)
  {
    if s != [] {
      assert s[0] in s;
      assert forall p :: p in s[1..] ==> p in s;
      Subadditive(s[1..]);
      SpanCard(s[0].addr, s[0].addr + s[0].size);
      assert |Bytes(s[0]) + Covered(s[1..])| <= |Bytes(s[0])| + |Covered(s[1..])|;
    }
  }

  /** Two families cover exactly iff each does and they do not meet. */
  lemma ExactCoverConcat(a: seq<Piece>, b: seq<Piece>)
    requires Positive(a) && Positive(b)
    ensures ExactCover(a + b) <==> ExactCover(a) && ExactCover(b) && Covered(a) !! Covered(b)
  {
    SumConcat(a, b);
    CoveredConcat(a, b);
    Subadditive(a);
    Subadditive(b);
    UnionCard(Covered(a), Covered(b));
  }

  lemma UnionCard(x: set<int>, y: set<int>)
    ensures |x + y| <= |x| + |y|
    ensures |x + y| == |x| + |y| <==> x !! y
  {
    assert |x + y| + |x * y| == |x| + |y|;
    DisjointIffNoCommon(x, y);
  }

  lemma DisjointIffNoCommon(x: set<int>, y: set<int>)
    ensures x !! y <==> |x * y| == 0
  {
    if |x * y| == 0 {
      assert x * y == {};
      forall z | z in x ensures z !in y {
        assert z !in x * y;
      }
    } else {
      assert x !! y ==> x * y == {};
    }
  }

  lemma SingleExactCover(p: Piece)
    requires p.size > 0
    ensures ExactCover([p]) && Covered([p]) == Bytes(p) && Sum([p]) == p.size
  {
    assert [p][1..] == [];
    SpanCard(p.addr, p.addr + p.size);
  }

  /** The characterisation: covering exactly is being pairwise disjoint. */
  lemma {:induction false} ExactCoverIffDisjoint(s: seq<Piece>)
    requires Positive(s)
    ensures ExactCover(s) <==> PairwiseDisjoint(s)
  {
    if s == [] {
    } else {
      var t := s[1..];
      assert s == [s[0]] + t;
      assert s[0] in s;
      assert Positive(t) by {
        forall p | p in t ensures p.size > 0 {
          assert p in s;
        }
      }
      SingleExactCover(s[0]);
      ExactCoverConcat([s[0]], t);
      ExactCoverIffDisjoint(t);
      assert Bytes(s[0]) !! Covered(t) <==> forall j :: 0 <= j < |t| ==> Bytes(s[0]) !! Bytes(t[j]) by {
        forall j | 0 <= j < |t| ensures Bytes(t[j]) <= Covered(t) {
          BytesInCovered(t, j);
        }
        if !(Bytes(s[0]) !! Covered(t)) {
          var x :| x in Bytes(s[0]) && x in Covered(t);
          CoveredMember(t, x);
        }
      }
      if PairwiseDisjoint(s) {
        assert PairwiseDisjoint(t) by {
          forall i, j | 0 <= i < j < |t| ensures Bytes(t[i]) !! Bytes(t[j]) {
            assert t[i] == s[i + 1] && t[j] == s[j + 1];
          }
        }
        forall j | 0 <= j < |t| ensures Bytes(s[0]) !! Bytes(t[j]) {
          assert t[j] == s[j + 1];
        }
      }
      if ExactCover(s) {
        forall i, j | 0 <= i < j < |s| ensures Bytes(s[i]) !! Bytes(s[j]) {
          if i == 0 {
            assert s[j] == t[j - 1];
          } else {
            assert s[i] == t[i - 1] && s[j] == t[j - 1];
          }
        }
      }
    }
  }

  /** Matching heads taken out of two permutations leave two permutations. */
  lemma RemoveMatching(a: seq<Piece>, b: seq<Piece>, k: int)
    requires multiset(a) == multiset(b) && a != [] && 0 <= k < |b| && b[k] == a[0]
    ensures multiset(a[1..]) == multiset(b[..k] + b[k + 1..])
  {
    assert b == b[..k] + [b[k]] + b[k + 1..];
    assert a == [a[0]] + a[1..];
    calc {
      multiset(b[..k] + b[k + 1..]);
      multiset(b[..k]) + multiset(b[k + 1..]);
      multiset(b) - multiset{b[k]};
      multiset(a) - multiset{a[0]};
      multiset(a[1..]);
    }
  }

  /** The order of the regions changes neither their total nor their cover. */
  lemma {:induction false} PermutationPreserves(a: seq<Piece>, b: seq<Piece>)
    requires multiset(a) == multiset(b)
    ensures Sum(a) == Sum(b) && Covered(a) == Covered(b)
    decreases |a|
  {
    if a == [] {
      assert |b| == |multiset(b)| == 0;
    } else {
      assert a[0] in multiset(b);
      var k :| 0 <= k < |b| && b[k] == a[0];
      var b' := b[..k] + b[k + 1..];
      assert multiset(a[1..]) == multiset(b') by {
        RemoveMatching(a, b, k);
      }
      PermutationPreserves(a[1..], b');
      RemoveAtSum(b, k);
      RemoveAtCovered(b, k);
    }
  }

  /** Region k cut out of a sequence: what comes before it, then it and what follows. */
  lemma SplitAround(b: seq<Piece>, k: int)
    requires 0 <= k < |b|
    ensures b == b[..k] + ([b[k]] + b[k + 1..]) && ([b[k]] + b[k + 1..])[1..] == b[k + 1..]
  {
  }

  /** Taking region k out of a sequence takes its size out of the total. */
  lemma RemoveAtSum(b: seq<Piece>, k: int)
    requires 0 <= k < |b|
    ensures Sum(b) == b[k].size + Sum(b[..k] + b[k + 1..])
  {
    var u, v, w := b[..k], b[k + 1..], [b[k]] + b[k + 1..];
    SplitAround(b, k);
    SumConcat(u, w);
    SumConcat(u, v);
  }

  /** Taking region k out of a sequence leaves its bytes and those the others cover. */
  lemma RemoveAtCovered(b: seq<Piece>, k: int)
    requires 0 <= k < |b|
    ensures Covered(b) == Bytes(b[k]) + Covered(b[..k] + b[k + 1..])
  {
    var u, v, w := b[..k], b[k + 1..], [b[k]] + b[k + 1..];
    SplitAround(b, k);
    CoveredConcat(u, w);
    CoveredConcat(u, v);
    UnionMiddle(Covered(b), Covered(u), Covered(w), Bytes(b[k]), Covered(v), Covered(u + v));
  }

  lemma UnionMiddle(all: set<int>, front: set<int>, back: set<int>, x: set<int>, rest: set<int>, without: set<int>)
    requires all == front + back && back == x + rest && without == front + rest
    ensures all == x + without
  {
  }

  lemma PermutationExactCover(a: seq<Piece>, b: seq<Piece>)
    requires multiset(a) == multiset(b)
    ensures ExactCover(a) <==> ExactCover(b)
    ensures Granular(a) <==> Granular(b)
    ensures Positive(a) <==> Positive(b)
  {
    PermutationPreserves(a, b);
    assert forall p :: p in a <==> p in multiset(a);
    assert forall p :: p in b <==> p in multiset(b);
  }

  /**
   * Adding a region that meets none of the others keeps the cover exact and
   * adds exactly its bytes.
   */
  lemma AddPiece(s: seq<Piece>, t: seq<Piece>, p: Piece)
    requires multiset(t) == multiset(s) + multiset{p}
    requires ExactCover(s) && Granular(s)
    requires IsAlignedSize(p.size) && Bytes(p) !! Covered(s)
    ensures ExactCover(t) && Granular(t)
    ensures Covered(t) == Covered(s) + Bytes(p) && Sum(t) == Sum(s) + p.size
  {
    assert multiset(s + [p]) == multiset(t);
    PermutationPreserves(s + [p], t);
    PermutationExactCover(s + [p], t);
    SingleExactCover(p);
    assert Positive(s);
    ExactCoverConcat(s, [p]);
    SumConcat(s, [p]);
    CoveredConcat(s, [p]);
    assert Granular(s + [p]);
  }

  /**
   * Removing one region of an exact cover frees exactly its bytes and leaves an
   * exact cover.
   */
  lemma RemovePiece(s: seq<Piece>, t: seq<Piece>, p: Piece)
    requires multiset(s) == multiset(t) + multiset{p}
    requires ExactCover(s) && Granular(s)
    ensures ExactCover(t) && Granular(t) && IsAlignedSize(p.size)
    ensures Covered(t) == Covered(s) - Bytes(p) && Bytes(p) !! Covered(t)
    ensures Bytes(p) <= Covered(s) && Sum(t) == Sum(s) - p.size
  {
    assert multiset(t + [p]) == multiset(s);
    PermutationExactCover(t + [p], s);
    PermutationPreserves(t + [p], s);
    assert p in t + [p];
    assert Positive(t + [p]);
    assert Granular(t) by {
      forall q | q in t ensures IsAlignedSize(q.size) {
        assert q in t + [p];
      }
    }
    SingleExactCover(p);
    ExactCoverConcat(t, [p]);
    SumConcat(t, [p]);
    CoveredConcat(t, [p]);
  }
}
