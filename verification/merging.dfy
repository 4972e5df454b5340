/**
 * `MergeSorting.merge(lowestIndex, middleIndex, highestIndex)`, shared by both
 * merge sorts. The scratch array `temp` (a field of the Java class) is a
 * parameter here.
 *
 * The merge is specified twice over the copy `t` of the array: `MergeRun`
 * gives the values it writes, and `MergeOrder` the copy index each of them is
 * taken from. The second makes the tie rule visible (equal elements come from
 * the left run first) and lets stability be stated; `MergeRunFollowsOrder`
 * ties the two together.
 */
module Merging {
  import opened Ordering

  /**
   * Whether the next step of the merge takes the right cursor's element: the
   * left run is exhausted, or the right element is strictly less than the left
   * one (on a tie the left element goes first).
   */
  predicate TakesRight(t: seq<int>, i: int, j: int, mid: int, hi: int)
    requires 0 <= i <= mid + 1 <= j <= hi + 1 <= |t|
  {
    j <= hi && (i > mid || Less(t[j], t[i]))
  }

  /**
   * The values the merge writes from left cursor `i` over `t[..mid+1]` and
   * right cursor `j` over `t[..hi+1]`, until both runs are exhausted.
   */
  function MergeRun(t: seq<int>, i: int, j: int, mid: int, hi: int): (r: seq<int>)
    requires 0 <= i <= mid + 1 <= j <= hi + 1 <= |t|
    ensures |r| == (mid + 1 - i) + (hi + 1 - j)
    decreases (mid + 1 - i) + (hi + 1 - j)
  {
    if i > mid && j > hi then []
    else if TakesRight(t, i, j, mid, hi) then [t[j]] + MergeRun(t, i, j + 1, mid, hi)
    else [t[i]] + MergeRun(t, i + 1, j, mid, hi)
  }

  /**
   * The copy indices the merge takes from, in the same steps as `MergeRun`.
   * Each index comes from one of the two remaining runs.
   */
  function MergeOrder(t: seq<int>, i: int, j: int, mid: int, hi: int): (r: seq<int>)
    requires 0 <= i <= mid + 1 <= j <= hi + 1 <= |t|
    ensures |r| == (mid + 1 - i) + (hi + 1 - j)
    ensures forall k :: 0 <= k < |r| ==> (i <= r[k] <= mid) || (j <= r[k] <= hi)
    decreases (mid + 1 - i) + (hi + 1 - j)
  {
    if i > mid && j > hi then []
    else if TakesRight(t, i, j, mid, hi) then [j] + MergeOrder(t, i, j + 1, mid, hi)
    else [i] + MergeOrder(t, i + 1, j, mid, hi)
  }

  /** What `merge(lo, mid, hi)` writes into `lo..hi` when the array holds `t`. */
  function Merged(t: seq<int>, lo: int, mid: int, hi: int): (r: seq<int>)
    requires 0 <= lo <= mid + 1 <= hi + 1 <= |t|
    ensures |r| == hi + 1 - lo
  {
    MergeRun(t, lo, mid + 1, mid, hi)
  }

  /** Every value written is the copy's element at the index the order names. */
  lemma {:induction false} MergeRunFollowsOrder(t: seq<int>, i: int, j: int, mid: int, hi: int)
    requires 0 <= i <= mid + 1 <= j <= hi + 1 <= |t|
    ensures forall k :: 0 <= k < |MergeRun(t, i, j, mid, hi)| ==>
      MergeRun(t, i, j, mid, hi)[k] == t[MergeOrder(t, i, j, mid, hi)[k]]
    decreases (mid + 1 - i) + (hi + 1 - j)
  {
    if i > mid && j > hi {
      assert MergeRun(t, i, j, mid, hi) == [];
    } else if TakesRight(t, i, j, mid, hi) {
      MergeRunFollowsOrder(t, i, j + 1, mid, hi);
      MergeRunStep(t, i, j, mid, hi);
      assert MergeOrder(t, i, j, mid, hi) == [j] + MergeOrder(t, i, j + 1, mid, hi);
      ConsFollows(t, j, MergeRun(t, i, j, mid, hi), MergeRun(t, i, j + 1, mid, hi),
        MergeOrder(t, i, j, mid, hi), MergeOrder(t, i, j + 1, mid, hi));
    } else {
      MergeRunFollowsOrder(t, i + 1, j, mid, hi);
      MergeRunStep(t, i, j, mid, hi);
      assert MergeOrder(t, i, j, mid, hi) == [i] + MergeOrder(t, i + 1, j, mid, hi);
      ConsFollows(t, i, MergeRun(t, i, j, mid, hi), MergeRun(t, i + 1, j, mid, hi),
        MergeOrder(t, i, j, mid, hi), MergeOrder(t, i + 1, j, mid, hi));
    }
  }

  lemma ConsFollows(t: seq<int>, x: int, r: seq<int>, r': seq<int>, o: seq<int>, o': seq<int>)
    requires 0 <= x < |t| && r == [t[x]] + r' && o == [x] + o' && |r'| == |o'|
    requires forall k :: 0 <= k < |o'| ==> 0 <= o'[k] < |t|
    requires forall k :: 0 <= k < |r'| ==> r'[k] == t[o'[k]]
    ensures forall k :: 0 <= k < |r| ==> r[k] == t[o[k]]
  {
    forall k | 0 <= k < |r|
      ensures r[k] == t[o[k]]
    {
      if k > 0 {
        assert r[k] == r'[k - 1] && o[k] == o'[k - 1];
      }
    }
  }

  /** One step of the merge: the value written first and the rest. */
  lemma MergeRunStep(t: seq<int>, i: int, j: int, mid: int, hi: int)
    requires 0 <= i <= mid + 1 <= j <= hi + 1 <= |t|
    requires i <= mid || j <= hi
    ensures TakesRight(t, i, j, mid, hi) ==> MergeRun(t, i, j, mid, hi) == [t[j]] + MergeRun(t, i, j + 1, mid, hi)
    ensures !TakesRight(t, i, j, mid, hi) ==> i <= mid && MergeRun(t, i, j, mid, hi) == [t[i]] + MergeRun(t, i + 1, j, mid, hi)
  {
  }

  /**
   * Putting the head `t[lo]` of a slice in front of a sequence that holds the
   * rest of the slice and `others` gives one that holds the whole slice and
   * `others`; `ConsPermutesFirst` has the slice first, `ConsPermutesSecond`
   * has it second.
   */
  lemma ConsPermutesFirst(t: seq<int>, lo: int, hi: int, r: seq<int>, r': seq<int>, others: multiset<int>)
    requires 0 <= lo < hi <= |t|
    requires r == [t[lo]] + r'
    requires multiset(r') == multiset(t[lo + 1..hi]) + others
    ensures multiset(r) == multiset(t[lo..hi]) + others
  {
    assert t[lo..hi] == [t[lo]] + t[lo + 1..hi];
  }

  lemma ConsPermutesSecond(t: seq<int>, lo: int, hi: int, r: seq<int>, r': seq<int>, others: multiset<int>)
    requires 0 <= lo < hi <= |t|
    requires r == [t[lo]] + r'
    requires multiset(r') == others + multiset(t[lo + 1..hi])
    ensures multiset(r) == others + multiset(t[lo..hi])
  {
    assert t[lo..hi] == [t[lo]] + t[lo + 1..hi];
  }

  lemma PermutesTakingRight(t: seq<int>, i: int, j: int, mid: int, hi: int)
    requires 0 <= i <= mid + 1 <= j <= hi + 1 <= |t|
    requires TakesRight(t, i, j, mid, hi)
    ensures multiset(MergeRun(t, i, j, mid, hi)) == multiset(t[i..mid + 1]) + multiset(t[j..hi + 1])
    decreases (mid + 1 - i) + (hi + 1 - j), 0
  {
    MergeRunPermutes(t, i, j + 1, mid, hi);
    MergeRunStep(t, i, j, mid, hi);
    ConsPermutesSecond(t, j, hi + 1, MergeRun(t, i, j, mid, hi), MergeRun(t, i, j + 1, mid, hi), multiset(t[i..mid + 1]));
  }

  lemma PermutesTakingLeft(t: seq<int>, i: int, j: int, mid: int, hi: int)
    requires 0 <= i <= mid + 1 <= j <= hi + 1 <= |t|
    requires i <= mid && !TakesRight(t, i, j, mid, hi)
    ensures multiset(MergeRun(t, i, j, mid, hi)) == multiset(t[i..mid + 1]) + multiset(t[j..hi + 1])
    decreases (mid + 1 - i) + (hi + 1 - j), 0
  {
    MergeRunPermutes(t, i + 1, j, mid, hi);
    MergeRunStep(t, i, j, mid, hi);
    ConsPermutesFirst(t, i, mid + 1, MergeRun(t, i, j, mid, hi), MergeRun(t, i + 1, j, mid, hi), multiset(t[j..hi + 1]));
  }

  /** The merge writes exactly the elements of the two runs. */
  lemma {:induction false} MergeRunPermutes(t: seq<int>, i: int, j: int, mid: int, hi: int)
    requires 0 <= i <= mid + 1 <= j <= hi + 1 <= |t|
    ensures multiset(MergeRun(t, i, j, mid, hi)) == multiset(t[i..mid + 1]) + multiset(t[j..hi + 1])
    decreases (mid + 1 - i) + (hi + 1 - j), 1
  {
    if i > mid && j > hi {
      assert t[i..mid + 1] == [] && t[j..hi + 1] == [];
    } else if TakesRight(t, i, j, mid, hi) {
      PermutesTakingRight(t, i, j, mid, hi);
    } else {
      PermutesTakingLeft(t, i, j, mid, hi);
    }
  }

  /** A value not above the head of either sorted run is below all of the merge. */
  lemma MergeBoundedBelow(t: seq<int>, i: int, j: int, mid: int, hi: int, x: int)
    requires 0 <= i <= mid + 1 <= j <= hi + 1 <= |t|
    requires Sorted(t[i..mid + 1]) && Sorted(t[j..hi + 1])
    requires i <= mid ==> x <= t[i]
    requires j <= hi ==> x <= t[j]
    ensures forall y :: y in multiset(MergeRun(t, i, j, mid, hi)) ==> x <= y
  {
    MergeRunPermutes(t, i, j, mid, hi);
    forall y | y in multiset(MergeRun(t, i, j, mid, hi))
      ensures x <= y
    {
      if y in multiset(t[i..mid + 1]) {
        SortedHeadIsLeast(t[i..mid + 1], y);
      } else {
        SortedHeadIsLeast(t[j..hi + 1], y);
      }
    }
  }

  lemma SortsTakingRight(t: seq<int>, i: int, j: int, mid: int, hi: int)
    requires 0 <= i <= mid + 1 <= j <= hi + 1 <= |t|
    requires TakesRight(t, i, j, mid, hi)
    requires Sorted(t[i..mid + 1]) && Sorted(t[j..hi + 1])
    requires Sorted(MergeRun(t, i, j + 1, mid, hi))
    ensures Sorted(MergeRun(t, i, j, mid, hi))
  {
    assert t[j..hi + 1][1..] == t[j + 1..hi + 1];
    SortedTail(t[j..hi + 1]);
    if j + 1 <= hi {
      assert t[j..hi + 1][0] <= t[j..hi + 1][1];
    }
    MergeBoundedBelow(t, i, j + 1, mid, hi, t[j]);
    SortedCons(t[j], MergeRun(t, i, j + 1, mid, hi));
  }

  lemma SortsTakingLeft(t: seq<int>, i: int, j: int, mid: int, hi: int)
    requires 0 <= i <= mid + 1 <= j <= hi + 1 <= |t|
    requires i <= mid && !TakesRight(t, i, j, mid, hi)
    requires Sorted(t[i..mid + 1]) && Sorted(t[j..hi + 1])
    requires Sorted(MergeRun(t, i + 1, j, mid, hi))
    ensures Sorted(MergeRun(t, i, j, mid, hi))
  {
    assert t[i..mid + 1][1..] == t[i + 1..mid + 1];
    SortedTail(t[i..mid + 1]);
    if i + 1 <= mid {
      assert t[i..mid + 1][0] <= t[i..mid + 1][1];
    }
    MergeBoundedBelow(t, i + 1, j, mid, hi, t[i]);
    SortedCons(t[i], MergeRun(t, i + 1, j, mid, hi));
  }

  /** Merging two sorted runs gives a sorted run. */
  lemma {:induction false} MergeRunSorts(t: seq<int>, i: int, j: int, mid: int, hi: int)
    requires 0 <= i <= mid + 1 <= j <= hi + 1 <= |t|
    requires Sorted(t[i..mid + 1]) && Sorted(t[j..hi + 1])
    ensures Sorted(MergeRun(t, i, j, mid, hi))
    decreases (mid + 1 - i) + (hi + 1 - j)
  {
    if i > mid && j > hi {
      assert MergeRun(t, i, j, mid, hi) == [];
    } else if TakesRight(t, i, j, mid, hi) {
      assert t[j..hi + 1][1..] == t[j + 1..hi + 1];
      SortedTail(t[j..hi + 1]);
      MergeRunSorts(t, i, j + 1, mid, hi);
      SortsTakingRight(t, i, j, mid, hi);
    } else {
      assert t[i..mid + 1][1..] == t[i + 1..mid + 1];
      SortedTail(t[i..mid + 1]);
      MergeRunSorts(t, i + 1, j, mid, hi);
      SortsTakingLeft(t, i, j, mid, hi);
    }
  }

  /** `merge(lo, mid, hi)` rearranges the elements of `lo..hi`. */
  lemma MergedPermutes(t: seq<int>, lo: int, mid: int, hi: int)
    requires 0 <= lo <= mid + 1 <= hi + 1 <= |t|
    ensures multiset(Merged(t, lo, mid, hi)) == multiset(t[lo..hi + 1])
  {
    MergeRunPermutes(t, lo, mid + 1, mid, hi);
    assert t[lo..hi + 1] == t[lo..mid + 1] + t[mid + 1..hi + 1];
  }

  /** `merge(lo, mid, hi)` of two sorted runs `lo..mid` and `mid+1..hi` is sorted. */
  lemma MergedSorts(t: seq<int>, lo: int, mid: int, hi: int)
    requires 0 <= lo <= mid + 1 <= hi + 1 <= |t|
    ensures Sorted(t[lo..mid + 1]) && Sorted(t[mid + 1..hi + 1]) ==> Sorted(Merged(t, lo, mid, hi))
  {
    if Sorted(t[lo..mid + 1]) && Sorted(t[mid + 1..hi + 1]) {
      MergeRunSorts(t, lo, mid + 1, mid, hi);
    }
  }

  /** Equal elements of `t` appear in `o` in the order of their indices. */
  ghost predicate KeepsEqualsInOrder(t: seq<int>, o: seq<int>)
    requires forall k :: 0 <= k < |o| ==> 0 <= o[k] < |t|
  {
    forall p, q :: 0 <= p < q < |o| && t[o[p]] == t[o[q]] ==> o[p] < o[q]
  }

  lemma SortedRunStartIsLeast(t: seq<int>, i: int, mid: int)
    requires 0 <= i <= mid + 1 <= |t|
    requires Sorted(t[i..mid + 1])
    ensures forall y :: i <= y <= mid ==> t[i] <= t[y]
  {
    forall y | i <= y <= mid
      ensures t[i] <= t[y]
    {
      assert t[i..mid + 1][0] <= t[i..mid + 1][y - i];
    }
  }

  lemma StableTakingRight(t: seq<int>, i: int, j: int, mid: int, hi: int)
    requires 0 <= i <= mid + 1 <= j <= hi + 1 <= |t|
    requires TakesRight(t, i, j, mid, hi)
    requires Sorted(t[i..mid + 1])
    requires KeepsEqualsInOrder(t, MergeOrder(t, i, j + 1, mid, hi))
    ensures KeepsEqualsInOrder(t, MergeOrder(t, i, j, mid, hi))
  {
    var o, rest := MergeOrder(t, i, j, mid, hi), MergeOrder(t, i, j + 1, mid, hi);
    assert o == [j] + rest;
    // a left element at or after the cursor is at least t[i] > t[j]
    SortedRunStartIsLeast(t, i, mid);
    forall p, q | 0 <= p < q < |o| && t[o[p]] == t[o[q]]
      ensures o[p] < o[q]
    {
      if p > 0 {
        assert o[p] == rest[p - 1] && o[q] == rest[q - 1];
      }
    }
  }

  lemma StableTakingLeft(t: seq<int>, i: int, j: int, mid: int, hi: int)
    requires 0 <= i <= mid + 1 <= j <= hi + 1 <= |t|
    requires i <= mid && !TakesRight(t, i, j, mid, hi)
    requires KeepsEqualsInOrder(t, MergeOrder(t, i + 1, j, mid, hi))
    ensures KeepsEqualsInOrder(t, MergeOrder(t, i, j, mid, hi))
  {
    var o, rest := MergeOrder(t, i, j, mid, hi), MergeOrder(t, i + 1, j, mid, hi);
    assert o == [i] + rest;
    forall p, q | 0 <= p < q < |o| && t[o[p]] == t[o[q]]
      ensures o[p] < o[q]
    {
      if p > 0 {
        assert o[p] == rest[p - 1] && o[q] == rest[q - 1];
      }
    }
  }

  /**
   * Stability: when the left run is sorted, equal elements are written in the
   * order of their positions in the copy; a right-run element never overtakes
   * an equal left-run element. In particular no copy index is taken twice.
   */
  lemma {:induction false} MergeOrderIsStable(t: seq<int>, i: int, j: int, mid: int, hi: int)
    requires 0 <= i <= mid + 1 <= j <= hi + 1 <= |t|
    requires Sorted(t[i..mid + 1])
    ensures KeepsEqualsInOrder(t, MergeOrder(t, i, j, mid, hi))
    decreases (mid + 1 - i) + (hi + 1 - j)
  {
    if i > mid && j > hi {
      assert MergeOrder(t, i, j, mid, hi) == [];
    } else if TakesRight(t, i, j, mid, hi) {
      MergeOrderIsStable(t, i, j + 1, mid, hi);
      StableTakingRight(t, i, j, mid, hi);
    } else {
      assert t[i..mid + 1][1..] == t[i + 1..mid + 1];
      SortedTail(t[i..mid + 1]);
      MergeOrderIsStable(t, i + 1, j, mid, hi);
      StableTakingLeft(t, i, j, mid, hi);
    }
  }

  /** `vals` continues, from its position `n`, as the merge from cursors `i` and `j`. */
  ghost predicate RunFrom(t: seq<int>, vals: seq<int>, n: int, i: int, j: int, mid: int, hi: int)
    requires 0 <= i <= mid + 1 <= j <= hi + 1 <= |t|
  {
    0 <= n <= |vals| && vals[n..] == MergeRun(t, i, j, mid, hi)
  }

  /** One step of the merge: which value it writes and where the cursors go. */
  lemma RunAdvance(t: seq<int>, vals: seq<int>, n: int, i: int, j: int, i': int, j': int, mid: int, hi: int)
    requires 0 <= i <= mid + 1 <= j <= hi + 1 <= |t|
    requires RunFrom(t, vals, n, i, j, mid, hi)
    requires i <= mid || j <= hi
    requires if TakesRight(t, i, j, mid, hi) then i' == i && j' == j + 1 else i' == i + 1 && j' == j
    ensures 0 <= i' <= mid + 1 <= j' <= hi + 1
    ensures n < |vals| && vals[n] == if TakesRight(t, i, j, mid, hi) then t[j] else t[i]
    ensures RunFrom(t, vals, n + 1, i', j', mid, hi)
  {
    assert vals[n..][0] == vals[n] && vals[n..][1..] == vals[n + 1..];
  }

  /** The first loop of `merge`: `temp[k] = values[k]` for every `k` in `lo..hi`. */
  method CopyToScratch(a: array<int>, temp: array<int>, lo: int, hi: int)
    requires a != temp
    requires 0 <= lo <= hi + 1 <= a.Length && hi < temp.Length
    modifies temp
    ensures forall p :: lo <= p <= hi ==> temp[p] == a[p]
    ensures forall p :: 0 <= p < temp.Length && !(lo <= p <= hi) ==> temp[p] == old(temp[p])
  {
    var k := lo;
    while k <= hi
      invariant lo <= k <= hi + 1
      invariant forall p :: lo <= p < k ==> temp[p] == a[p]
      invariant forall p :: 0 <= p < temp.Length && !(lo <= p < k) ==> temp[p] == old(temp[p])
    {
      temp[k] := a[k];
      k := k + 1;
    }
  }

  /**
   * The second loop of `merge`: slot `k` of `lo..hi` receives the element of
   * the copy in `temp` chosen by the four cases of the source, in order: left
   * run exhausted, right run exhausted, right element strictly less, else left.
   */
  method MergeBack(a: array<int>, temp: array<int>, lo: int, mid: int, hi: int)
    requires a != temp
    requires 0 <= lo <= mid + 1 <= hi + 1 <= a.Length && hi < temp.Length
    requires forall p :: lo <= p <= hi ==> temp[p] == a[p]
    modifies a
    ensures a[lo..hi + 1] == Merged(old(a[..]), lo, mid, hi)
    ensures forall p :: 0 <= p < a.Length && !(lo <= p <= hi) ==> a[p] == old(a[p])
  {
    ghost var t := a[..];
    ghost var vals := Merged(t, lo, mid, hi);
    ghost var n := 0;
    var i, j, k := lo, mid + 1, lo;
    while k <= hi
      invariant lo <= i <= mid + 1 <= j <= hi + 1
      invariant k == i + j - mid - 1 && n == k - lo
      invariant RunFrom(t, vals, n, i, j, mid, hi)
      invariant forall p :: lo <= p < k ==> a[p] == vals[p - lo]
      invariant forall p :: 0 <= p < lo ==> a[p] == t[p]
      invariant forall p :: k <= p < a.Length ==> a[p] == t[p]
    {
      ghost var i0, j0 := i, j;
      if i > mid {
        assert TakesRight(t, i, j, mid, hi);
        a[k] := temp[j];
        j := j + 1;
      } else if j > hi {
        assert !TakesRight(t, i, j, mid, hi);
        a[k] := temp[i];
        i := i + 1;
      } else if Less(temp[j], temp[i]) {
        assert TakesRight(t, i, j, mid, hi);
        a[k] := temp[j];
        j := j + 1;
      } else {
        assert !TakesRight(t, i, j, mid, hi);
        a[k] := temp[i];
        i := i + 1;
      }
      RunAdvance(t, vals, n, i0, j0, i, j, mid, hi);
      k, n := k + 1, n + 1;
    }
    assert a[lo..hi + 1] == vals;
  }

  /**
   * `merge(lo, mid, hi)`: copies `a[lo..hi]` into `temp` at the same offsets,
   * then writes `lo..hi` back by taking the smaller current element of the
   * two runs of the copy, the left one on ties, and draining the other run
   * once one is exhausted. Slots outside `lo..hi` are untouched; when both
   * runs were sorted the merged run is sorted.
   */
  method Merge(a: array<int>, temp: array<int>, lo: int, mid: int, hi: int)
    requires a != temp
    requires 0 <= lo <= mid + 1 <= hi + 1 <= a.Length
    requires hi < temp.Length
    modifies a, temp
    ensures a[lo..hi + 1] == Merged(old(a[..]), lo, mid, hi)
    ensures forall p :: 0 <= p < a.Length && !(lo <= p <= hi) ==> a[p] == old(a[p])
    ensures forall p :: lo <= p <= hi ==> temp[p] == old(a[p])
    ensures forall p :: 0 <= p < temp.Length && !(lo <= p <= hi) ==> temp[p] == old(temp[p])
    ensures multiset(a[lo..hi + 1]) == multiset(old(a[lo..hi + 1]))
    ensures Sorted(old(a[lo..mid + 1])) && Sorted(old(a[mid + 1..hi + 1])) ==> Sorted(a[lo..hi + 1])
  {
    ghost var t := a[..];
    CopyToScratch(a, temp, lo, hi);
    MergeBack(a, temp, lo, mid, hi);
    MergedPermutes(t, lo, mid, hi);
    MergedSorts(t, lo, mid, hi);
  }
}
