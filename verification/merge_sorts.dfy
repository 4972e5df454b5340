/**
 * `DescendingMergeSorting` (top-down, recursive) and `AscendingMergeSorting`
 * (bottom-up, by passes of doubling width), both built on `merge`. The Java
 * classes keep the scratch array in a field they allocate in `sort()`; here
 * it is a local array handed to the helpers.
 */
module MergeSorts {
  import opened Ordering
  import opened Merging

  function Min(x: int, y: int): (m: int)
  {
    if x <= y then x else y
  }

  /** Two arrays that agree outside `lo..hi-1` and hold that slice rearranged are permutations. */
  lemma RearrangedSlice(s: seq<int>, r: seq<int>, lo: int, hi: int)
    requires 0 <= lo <= hi <= |s| == |r|
    requires forall p :: 0 <= p < |s| && !(lo <= p < hi) ==> r[p] == s[p]
    requires multiset(r[lo..hi]) == multiset(s[lo..hi])
    ensures multiset(r) == multiset(s)
  {
    assert s == s[..lo] + s[lo..hi] + s[hi..];
    assert r == r[..lo] + r[lo..hi] + r[hi..];
    assert r[..lo] == s[..lo];
    assert r[hi..] == s[hi..];
  }

  /**
   * The slice `lo..hi` after sorting both halves in turn: each half was
   * rearranged by its own call and left alone by the other.
   */
  lemma HalvesRearranged(s0: seq<int>, s1: seq<int>, s2: seq<int>, lo: int, mid: int, hi: int)
    requires 0 <= lo <= mid <= hi < |s0| == |s1| == |s2|
    requires multiset(s1[lo..mid + 1]) == multiset(s0[lo..mid + 1])
    requires forall p :: 0 <= p < |s0| && !(lo <= p <= mid) ==> s1[p] == s0[p]
    requires multiset(s2[mid + 1..hi + 1]) == multiset(s1[mid + 1..hi + 1])
    requires forall p :: 0 <= p < |s1| && !(mid + 1 <= p <= hi) ==> s2[p] == s1[p]
    ensures s2[lo..mid + 1] == s1[lo..mid + 1]
    ensures multiset(s2[lo..hi + 1]) == multiset(s0[lo..hi + 1])
  {
    assert s2[lo..mid + 1] == s1[lo..mid + 1];
    assert s1[mid + 1..hi + 1] == s0[mid + 1..hi + 1];
    assert s2[lo..hi + 1] == s2[lo..mid + 1] + s2[mid + 1..hi + 1];
    assert s0[lo..hi + 1] == s0[lo..mid + 1] + s0[mid + 1..hi + 1];
  }

  /**
   * The split point `lo + (hi-lo)/2` of the top-down sort: both halves
   * `lo..mid` and `mid+1..hi` are non-empty and shorter than `lo..hi`.
   */
  function Midpoint(lo: int, hi: int): (mid: int)
    requires lo < hi
    ensures lo <= mid < hi
    ensures mid - lo < hi - lo && hi - (mid + 1) < hi - lo
  {
    lo + (hi - lo) / 2
  }

  /**
   * `sort(lo, hi)` of the top-down merge sort: nothing to do for fewer than two
   * elements; otherwise sort `lo..mid` and `mid+1..hi` with
   * `mid = lo + (hi-lo)/2`, then merge them. Only `lo..hi` changes, and it ends
   * sorted and rearranged.
   */
  method SortRange(a: array<int>, temp: array<int>, lo: int, hi: int)
    requires a != temp
    requires 0 <= lo <= hi + 1 <= a.Length && hi < temp.Length
    modifies a, temp
    ensures Sorted(a[lo..hi + 1])
    ensures multiset(a[lo..hi + 1]) == multiset(old(a[lo..hi + 1]))
    ensures forall p :: 0 <= p < a.Length && !(lo <= p <= hi) ==> a[p] == old(a[p])
    decreases hi - lo
  {
    if hi <= lo {
      return;
    }
    var mid := Midpoint(lo, hi);
    ghost var s0 := a[..];
    SortRange(a, temp, lo, mid);
    ghost var s1 := a[..];
    SortRange(a, temp, mid + 1, hi);
    ghost var s2 := a[..];
    HalvesRearranged(s0, s1, s2, lo, mid, hi);
    Merge(a, temp, lo, mid, hi);
  }

  /** The top-down merge sort: a scratch array as long as the input, then `sort(0, n-1)`. */
  method TopDownMergeSort(a: array<int>)
    modifies a
    ensures Sorted(a[..])
    ensures multiset(a[..]) == multiset(old(a[..]))
    ensures a[..] == SortedOf(old(a[..]))
    ensures Sorted(old(a[..])) ==> a[..] == old(a[..])
  {
    var temp := new int[a.Length];
    SortRange(a, temp, 0, a.Length - 1);
    assert a[..] == a[0..a.Length] && old(a[..]) == old(a[0..a.Length]);
    SortedPermutationIsSortedOf(a[..], old(a[..]));
    if Sorted(old(a[..])) {
      SortedOfSortedIsIdentity(old(a[..]));
    }
  }

  /** Block `c` of width `w` (the last block may be shorter) is sorted. */
  ghost predicate BlockSorted(s: seq<int>, w: nat, c: nat)
  {
    var start := c * w;
    start < |s| ==> Sorted(s[start..Min(start + w, |s|)])
  }

  lemma MulSucc(k: nat, w: nat)
    ensures (k + 1) * w == k * w + w
  {
  }

  /** Block `2m` of width `w` starts where block `m` of width `2w` does, block `2m+1` `w` later. */
  lemma HalfBlocks(m: nat, w: nat)
    ensures (2 * m) * w == m * (2 * w)
    ensures (2 * m + 1) * w == m * (2 * w) + w
  {
    MulSucc(2 * m, w);
  }

  /** Later blocks start no earlier than the end of earlier ones. */
  lemma {:induction false} BlockOrder(w: nat, c: nat, d: nat)
    requires c < d
    ensures c * w + w <= d * w
    decreases d - c
  {
    MulSucc(c, w);
    if c + 1 < d {
      BlockOrder(w, c + 1, d);
    }
  }

  /** A block that lies wholly outside the changed slice `lo..hi` keeps its state. */
  lemma BlockUnchanged(s: seq<int>, r: seq<int>, w: nat, c: nat, lo: int, hi: int)
    requires |r| == |s|
    requires forall p :: 0 <= p < |s| && !(lo <= p <= hi) ==> r[p] == s[p]
    requires c * w + w <= lo || hi < c * w
    requires BlockSorted(s, w, c)
    ensures BlockSorted(r, w, c)
  {
    var start := c * w;
    if start < |s| {
      var end := Min(start + w, |s|);
      assert r[start..end] == s[start..end];
    }
  }

  /** One merge of the pass: block `m` of width `2*sz` becomes sorted, the rest keeps its state. */
  lemma PassStep(s: seq<int>, r: seq<int>, sz: nat, m: nat, lo: int, hi: int)
    requires sz >= 1 && lo == m * (2 * sz) && 0 <= lo < |s| - sz && |r| == |s|
    requires hi == Min(lo + 2 * sz - 1, |s| - 1)
    requires forall c: nat :: c < m ==> BlockSorted(s, 2 * sz, c)
    requires forall c: nat :: 2 * m <= c ==> BlockSorted(s, sz, c)
    requires forall p :: 0 <= p < |s| && !(lo <= p <= hi) ==> r[p] == s[p]
    requires Sorted(s[lo..lo + sz]) && Sorted(s[lo + sz..hi + 1]) ==> Sorted(r[lo..hi + 1])
    ensures forall c: nat :: c < m + 1 ==> BlockSorted(r, 2 * sz, c)
    ensures forall c: nat :: 2 * (m + 1) <= c ==> BlockSorted(r, sz, c)
  {
    HalfBlocks(m, sz);
    assert BlockSorted(s, sz, 2 * m) && BlockSorted(s, sz, 2 * m + 1);
    forall c: nat | c < m
      ensures BlockSorted(r, 2 * sz, c)
    {
      BlockOrder(2 * sz, c, m);
      BlockUnchanged(s, r, 2 * sz, c, lo, hi);
    }
    forall c: nat | 2 * (m + 1) <= c
      ensures BlockSorted(r, sz, c)
    {
      BlockOrder(sz, 2 * m + 1, c);
      BlockUnchanged(s, r, sz, c, lo, hi);
    }
  }

  /** When the pass stops, the last, partial block was already sorted at width `sz`. */
  lemma PassEnd(s: seq<int>, sz: nat, m: nat)
    requires sz >= 1 && m * (2 * sz) >= |s| - sz
    requires forall c: nat :: c < m ==> BlockSorted(s, 2 * sz, c)
    requires forall c: nat :: 2 * m <= c ==> BlockSorted(s, sz, c)
    ensures forall c: nat :: BlockSorted(s, 2 * sz, c)
  {
    forall c: nat
      ensures BlockSorted(s, 2 * sz, c)
    {
      if c == m {
        HalfBlocks(m, sz);
        assert BlockSorted(s, sz, 2 * m);
      } else if c > m {
        BlockOrder(2 * sz, m, c);
      }
    }
  }

  /** Pair `c` of the pass for width `sz`, if it is merged at all, holds its old elements. */
  ghost predicate PairRearranged(s: seq<int>, r: seq<int>, sz: nat, c: nat)
  {
    var lo := c * (2 * sz);
    |r| == |s| &&
    (sz >= 1 && 0 <= lo < |s| - sz ==>
      multiset(r[lo..PairEnd(lo, sz, |s|) + 1]) == multiset(s[lo..PairEnd(lo, sz, |s|) + 1]))
  }

  /** A pair that ends before the changed slice `lo..hi` keeps its elements. */
  lemma PairKept(s0: seq<int>, s: seq<int>, r: seq<int>, sz: nat, c: nat, lo: int, hi: int)
    requires sz >= 1 && |s| == |s0| && |r| == |s0|
    requires c * (2 * sz) + 2 * sz <= lo
    requires forall p :: 0 <= p < |s| && !(lo <= p <= hi) ==> r[p] == s[p]
    requires PairRearranged(s0, s, sz, c)
    ensures PairRearranged(s0, r, sz, c)
  {
    var start := c * (2 * sz);
    if 0 <= start < |s0| - sz {
      var end := PairEnd(start, sz, |s0|) + 1;
      assert r[start..end] == s[start..end];
    }
  }

  /**
   * One merge of the pass, seen from the pass's start `s0`: pair `m` holds its
   * old elements, earlier pairs (wholly before `lo`) keep theirs, and the
   * positions from the next pair on are still as they were at the start.
   */
  lemma PairsStep(s0: seq<int>, s: seq<int>, r: seq<int>, sz: nat, m: nat, lo: int, hi: int)
    requires sz >= 1 && lo == m * (2 * sz) && 0 <= lo < |s0| - sz
    requires |s| == |s0| && |r| == |s0| && hi == PairEnd(lo, sz, |s0|)
    requires forall c: nat :: c < m ==> PairRearranged(s0, s, sz, c)
    requires forall p :: lo <= p < |s| ==> s[p] == s0[p]
    requires forall p :: 0 <= p < |s| && !(lo <= p <= hi) ==> r[p] == s[p]
    requires multiset(r[lo..hi + 1]) == multiset(s[lo..hi + 1])
    ensures forall c: nat :: c < m + 1 ==> PairRearranged(s0, r, sz, c)
    ensures forall p :: lo + 2 * sz <= p < |r| ==> r[p] == s0[p]
  {
    assert s[lo..hi + 1] == s0[lo..hi + 1];
    assert PairRearranged(s0, r, sz, m);
    forall c: nat | c < m
      ensures PairRearranged(s0, r, sz, c)
    {
      BlockOrder(2 * sz, c, m);
      PairKept(s0, s, r, sz, c, lo, hi);
    }
  }

  /**
   * The bookkeeping of one iteration of the pass: after the merge at
   * `lo = m*2*sz`, the invariants of the pass hold for `m + 1`.
   */
  lemma PassAdvance(s0: seq<int>, s: seq<int>, r: seq<int>, sz: nat, m: nat, lo: int, hi: int)
    requires sz >= 1 && lo == m * (2 * sz) && 0 <= lo < |s0| - sz
    requires |s| == |s0| && |r| == |s0| && hi == PairEnd(lo, sz, |s0|)
    requires forall c: nat :: c < m ==> BlockSorted(s, 2 * sz, c)
    requires forall c: nat :: 2 * m <= c ==> BlockSorted(s, sz, c)
    requires forall c: nat :: c < m ==> PairRearranged(s0, s, sz, c)
    requires forall p :: lo <= p < |s| ==> s[p] == s0[p]
    requires forall p :: 0 <= p < |s| && !(lo <= p <= hi) ==> r[p] == s[p]
    requires multiset(r[lo..hi + 1]) == multiset(s[lo..hi + 1])
    requires Sorted(s[lo..lo + sz]) && Sorted(s[lo + sz..hi + 1]) ==> Sorted(r[lo..hi + 1])
    ensures lo + 2 * sz == (m + 1) * (2 * sz)
    ensures forall c: nat :: c < m + 1 ==> BlockSorted(r, 2 * sz, c)
    ensures forall c: nat :: 2 * (m + 1) <= c ==> BlockSorted(r, sz, c)
    ensures forall c: nat :: c < m + 1 ==> PairRearranged(s0, r, sz, c)
    ensures forall p :: lo + 2 * sz <= p < |r| ==> r[p] == s0[p]
  {
    PassStep(s, r, sz, m, lo, hi);
    PairsStep(s0, s, r, sz, m, lo, hi);
    MulSucc(m, 2 * sz);
  }

  /**
   * The last index `min(lo+2*sz-1, n-1)` of the pair of blocks merged at `lo`.
   * While `lo < n - sz` the right block `lo+sz..hi` is not empty, and the pair
   * spans at most `2*sz` slots.
   */
  function PairEnd(lo: int, sz: int, n: int): (hi: int)
    requires 0 <= lo < n - sz && sz >= 1
    ensures lo + sz - 1 < hi < n
    ensures hi - lo < 2 * sz
    ensures hi == n - 1 || hi - lo == 2 * sz - 1
  {
    Min(lo + 2 * sz - 1, n - 1)
  }

  /**
   * One iteration of the pass: `merge(lo, lo+sz-1, min(lo+2*sz-1, n-1))`.
   * The pair `lo..hi` becomes the merge of its two blocks, which is sorted
   * when both blocks were; nothing outside the pair changes.
   */
  method MergeBlockPair(a: array<int>, temp: array<int>, sz: int, lo: int) returns (hi: int)
    requires a != temp && a.Length <= temp.Length && sz >= 1
    requires 0 <= lo < a.Length - sz
    modifies a, temp
    ensures hi == PairEnd(lo, sz, a.Length)
    ensures a[lo..hi + 1] == Merged(old(a[..]), lo, lo + sz - 1, hi)
    ensures multiset(a[lo..hi + 1]) == multiset(old(a[lo..hi + 1]))
    ensures Sorted(old(a[lo..lo + sz])) && Sorted(old(a[lo + sz..hi + 1])) ==> Sorted(a[lo..hi + 1])
    ensures forall p :: 0 <= p < a.Length && !(lo <= p <= hi) ==> a[p] == old(a[p])
    ensures multiset(a[..]) == multiset(old(a[..]))
  {
    hi := PairEnd(lo, sz, a.Length);
    Merge(a, temp, lo, lo + sz - 1, hi);
    RearrangedSlice(old(a[..]), a[..], lo, hi + 1);
  }

  /**
   * One pass of the bottom-up merge sort, the inner loop of the source: merges
   * the block pairs starting at `lo = 0, 2*sz, 4*sz, ...` while `lo < n - sz`.
   * Blocks of width `sz` sorted before, blocks of width `2*sz` sorted after.
   */
  method MergePass(a: array<int>, temp: array<int>, sz: int) returns (ghost m: nat)
    requires a != temp && a.Length <= temp.Length && sz >= 1
    requires forall c: nat :: BlockSorted(a[..], sz, c)
    modifies a, temp
    ensures forall c: nat :: BlockSorted(a[..], 2 * sz, c)
    ensures multiset(a[..]) == multiset(old(a[..]))
    ensures forall c: nat :: c < m ==> PairRearranged(old(a[..]), a[..], sz, c)
    ensures m * (2 * sz) >= a.Length - sz
    ensures m == 0 || m * (2 * sz) - 2 * sz < a.Length - sz
    ensures forall p :: m * (2 * sz) <= p < a.Length ==> a[p] == old(a[p])
  {
    var n := a.Length;
    var lo := 0;
    m := 0;
    while lo < n - sz
      invariant 0 <= lo == m * (2 * sz)
      invariant m == 0 || lo - 2 * sz < n - sz
      invariant forall c: nat :: c < m ==> BlockSorted(a[..], 2 * sz, c)
      invariant forall c: nat :: 2 * m <= c ==> BlockSorted(a[..], sz, c)
      invariant multiset(a[..]) == multiset(old(a[..]))
      invariant forall c: nat :: c < m ==> PairRearranged(old(a[..]), a[..], sz, c)
      invariant forall p :: lo <= p < n ==> a[p] == old(a[p])
      decreases n - lo
    {
      ghost var s := a[..];
      var hi := MergeBlockPair(a, temp, sz, lo);
      PassAdvance(old(a[..]), s, a[..], sz, m, lo, hi);
      lo := lo + 2 * sz;
      m := m + 1;
    }
    PassEnd(a[..], sz, m);
  }

  /**
   * The bottom-up merge sort: passes for widths 1, 2, 4, ... while the width is
   * below `n`; the last pass leaves one sorted block covering the array.
   */
  method BottomUpMergeSort(a: array<int>)
    modifies a
    ensures Sorted(a[..])
    ensures multiset(a[..]) == multiset(old(a[..]))
    ensures a[..] == SortedOf(old(a[..]))
    ensures Sorted(old(a[..])) ==> a[..] == old(a[..])
  {
    var temp := new int[a.Length];
    var sz := 1;
    while sz < a.Length
      invariant sz >= 1
      invariant forall c: nat :: BlockSorted(a[..], sz, c)
      invariant multiset(a[..]) == multiset(old(a[..]))
      decreases a.Length - sz
    {
      ghost var w := 2 * sz;
      ghost var _ := MergePass(a, temp, sz);
      sz := sz + sz;
      assert sz == w;
    }
    assert BlockSorted(a[..], sz, 0);
    if a.Length > 0 {
      assert a[..] == a[0..Min(0 * sz + sz, a.Length)];
    }
    SortedPermutationIsSortedOf(a[..], old(a[..]));
    if Sorted(old(a[..])) {
      SortedOfSortedIsIdentity(old(a[..]));
    }
  }
}
