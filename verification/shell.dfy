/** `ShellSorting.sort`, on an array parameter in place of `values`. */
module Shell {
  import opened Ordering

  /** The increments 1, 4, 13, 40, ... of the 3h+1 sequence. */
  predicate IsGap(h: int)
    decreases h
  {
    h == 1 || (h > 1 && h % 3 == 1 && IsGap(h / 3))
  }

  /**
   * The next increment `h/3` after an increment `h` is smaller and again an
   * increment, except after 1, where it is 0 and the passes stop: the last
   * pass always has `h == 1`.
   */
  lemma GapShrinks(h: int)
    requires IsGap(h)
    ensures 0 <= h / 3 < h
    ensures h / 3 == 0 <==> h == 1
    ensures h > 1 ==> IsGap(h / 3)
  {
  }

  /**
   * The first increment: `h` grows by `h = 3*h + 1` from 1 while it is below
   * `n/3`, so the result is the smallest increment that is at least `n/3`.
   */
  method StartGap(n: int) returns (h: int)
    ensures IsGap(h)
    ensures n / 3 <= h
    ensures h == 1 || h / 3 < n / 3
  {
    h := 1;
    while h < n / 3
      invariant IsGap(h)
      invariant h == 1 || h / 3 < n / 3
    {
      h := 3 * h + 1;
    }
  }

  /**
   * The elements at positions `p, p+h, p+2h, ...` of `s`. For `0 <= r < h`
   * the chain from `r` is one of the `h` interleaved subsequences that a pass
   * for `h` sorts.
   */
  ghost function ChainElems(s: seq<int>, h: int, p: nat): (c: multiset<int>)
    requires h >= 1
    decreases |s| - p
  {
    if p >= |s| then multiset{} else multiset{s[p]} + ChainElems(s, h, p + h)
  }

  /** `r` is `s` with the elements at `i` and `j` exchanged. */
  ghost predicate SwappedAt(s: seq<int>, r: seq<int>, i: int, j: int)
  {
    0 <= i < |s| && 0 <= j < |s| && |r| == |s| &&
    r[i] == s[j] && r[j] == s[i] &&
    forall q :: 0 <= q < |s| && q != i && q != j ==> r[q] == s[q]
  }

  lemma UnionSwap(x: int, y: int, m: multiset<int>)
    ensures multiset{x} + (multiset{y} + m) == multiset{y} + (multiset{x} + m)
  {
  }

  /** A chain through both exchanged positions keeps its elements. */
  lemma SwapInChain(s: seq<int>, r: seq<int>, h: int, p: nat)
    requires h >= 1 && SwappedAt(s, r, p, p + h)
    requires ChainElems(r, h, p + 2 * h) == ChainElems(s, h, p + 2 * h)
    ensures ChainElems(r, h, p) == ChainElems(s, h, p)
  {
    var rest := ChainElems(s, h, p + 2 * h);
    assert ChainElems(r, h, p) == multiset{s[p + h]} + (multiset{s[p]} + rest);
    assert ChainElems(s, h, p) == multiset{s[p]} + (multiset{s[p + h]} + rest);
    UnionSwap(s[p + h], s[p], rest);
  }

  /** A chain position other than the exchanged ones holds the same element. */
  lemma SwapOffChain(s: seq<int>, r: seq<int>, h: int, j: int, p: nat)
    requires h >= 1 && h <= j && SwappedAt(s, r, j - h, j)
    requires p < |s| && p != j && p != j - h
    requires ChainElems(r, h, p + h) == ChainElems(s, h, p + h)
    ensures ChainElems(r, h, p) == ChainElems(s, h, p)
  {
    assert r[p] == s[p];
  }

  /**
   * Exchanging the elements at `j-h` and `j` keeps the elements of every chain
   * that does not start at `j` itself: a chain that passes `j-h` holds both,
   * any other chain holds neither.
   */
  lemma {:induction false} ChainElemsSwap(s: seq<int>, r: seq<int>, h: int, j: int, p: nat)
    requires h >= 1 && h <= j
    requires SwappedAt(s, r, j - h, j)
    requires p != j
    ensures ChainElems(r, h, p) == ChainElems(s, h, p)
    decreases |s| - p
  {
    if p >= |s| {
    } else if p == j - h {
      ChainElemsSwap(s, r, h, j, j + h);
      SwapInChain(s, r, h, p);
    } else {
      ChainElemsSwap(s, r, h, j, p + h);
      SwapOffChain(s, r, h, j, p);
    }
  }

  /**
   * One pass for increment `h`: insertion sort of each of the `h` interleaved
   * subsequences, by exchanges `h` apart. Afterwards no element is less than
   * the one `h` positions before it, and each subsequence holds the elements
   * it held before.
   */
  method HSortPass(a: array<int>, h: int)
    requires h >= 1
    modifies a
    ensures HSorted(a[..], h)
    ensures multiset(a[..]) == multiset(old(a[..]))
    ensures forall r: nat :: r < h ==> ChainElems(a[..], h, r) == ChainElems(old(a[..]), h, r)
  {
    var i := h;
    while i < a.Length
      invariant h <= i && (i <= a.Length || a.Length < h)
      invariant forall p :: h <= p < i && p < a.Length ==> !Less(a[p], a[p - h])
      invariant multiset(a[..]) == multiset(old(a[..]))
      invariant forall r: nat :: r < h ==> ChainElems(a[..], h, r) == ChainElems(old(a[..]), h, r)
    {
      var j := i;
      while j >= h && Less(a[j], a[j - h])
        invariant 0 <= j <= i
        // every pair h apart up to i is in order, except possibly (j-h, j)
        invariant forall p :: h <= p <= i && p != j ==> !Less(a[p], a[p - h])
        // the pair that straddles the moving element is in order
        invariant j >= h && j + h <= i ==> !Less(a[j + h], a[j - h])
        invariant multiset(a[..]) == multiset(old(a[..]))
        invariant forall r: nat :: r < h ==> ChainElems(a[..], h, r) == ChainElems(old(a[..]), h, r)
      {
        ghost var s := a[..];
        Exchange(a, j, j - h);
        assert SwappedAt(s, a[..], j - h, j);
        forall r: nat | r < h
          ensures ChainElems(a[..], h, r) == ChainElems(s, h, r)
        {
          ChainElemsSwap(s, a[..], h, j, r);
        }
        j := j - h;
      }
      i := i + 1;
    }
  }

  /**
   * Shell sort: passes for decreasing increments `h = h/3`; every increment is
   * of the 3h+1 form, so the last pass has `h == 1` and leaves the array sorted.
   */
  method ShellSort(a: array<int>)
    modifies a
    ensures Sorted(a[..])
    ensures multiset(a[..]) == multiset(old(a[..]))
    ensures a[..] == SortedOf(old(a[..]))
    ensures Sorted(old(a[..])) ==> a[..] == old(a[..])
  {
    var h := StartGap(a.Length);
    while h >= 1
      invariant h == 0 || IsGap(h)
      invariant h == 0 ==> Sorted(a[..])
      invariant multiset(a[..]) == multiset(old(a[..]))
      decreases h
    {
      HSortPass(a, h);
      GapShrinks(h);
      if h == 1 {
        AdjacentSortedIffSorted(a[..]);
      }
      h := h / 3;
    }
    SortedPermutationIsSortedOf(a[..], old(a[..]));
    if Sorted(old(a[..])) {
      SortedOfSortedIsIdentity(old(a[..]));
    }
  }
}
