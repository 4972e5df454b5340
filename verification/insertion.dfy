/**
 * `InsertionSorting.sort` and `ImprovedInsertionSorting.sort`.
 *
 * The Java classes work on the shared static array `values` up to the constant
 * `arrLen`; here the array is a parameter and `a.Length` stands for `arrLen`
 * (the program always builds `values` with `arrLen` elements).
 */
module Insertion {
  import opened Ordering

  /**
   * Insertion sort by adjacent exchanges: each `a[i]` is swapped leftwards
   * while it is less than its left neighbour.
   */
  method InsertionSort(a: array<int>)
    modifies a
    ensures Sorted(a[..])
    ensures multiset(a[..]) == multiset(old(a[..]))
    ensures a[..] == SortedOf(old(a[..]))
    ensures Sorted(old(a[..])) ==> a[..] == old(a[..])
  {
    var i := 1;
    while i < a.Length
      invariant 1 <= i && (i <= a.Length || a.Length == 0)
      invariant forall p :: 1 <= p < i && p < a.Length ==> !Less(a[p], a[p - 1])
      invariant multiset(a[..]) == multiset(old(a[..]))
    {
      var j := i;
      while j > 0 && Less(a[j], a[j - 1])
        invariant 0 <= j <= i
        // every adjacent pair up to i is in order, except possibly (j-1, j)
        invariant forall p :: 1 <= p <= i && p != j ==> !Less(a[p], a[p - 1])
        // the pair that straddles the moving element is in order
        invariant 1 <= j && j + 1 <= i ==> !Less(a[j + 1], a[j - 1])
        invariant multiset(a[..]) == multiset(old(a[..]))
      {
        Exchange(a, j, j - 1);
        j := j - 1;
      }
      i := i + 1;
    }
    AdjacentSortedIffSorted(a[..]);
    SortedPermutationIsSortedOf(a[..], old(a[..]));
    if Sorted(old(a[..])) {
      SortedOfSortedIsIdentity(old(a[..]));
    }
  }

  /**
   * Phase 1 of the improved insertion sort: one backward pass of adjacent
   * exchanges that carries the minimum to index 0, counting the exchanges.
   * No exchange happens exactly when the input is already sorted, and then
   * the array is unchanged.
   */
  method MoveMinimumToFront(a: array<int>) returns (exchanges: nat)
    modifies a
    ensures multiset(a[..]) == multiset(old(a[..]))
    ensures forall q :: 0 <= q < a.Length ==> a[0] <= a[q]
    ensures exchanges == 0 <==> Sorted(old(a[..]))
    ensures exchanges == 0 ==> a[..] == old(a[..])
  {
    exchanges := 0;
    ghost var s := a[..];
    var i := a.Length - 1;
    while i > 0
      invariant -1 <= i < a.Length && (a.Length > 0 ==> 0 <= i)
      // the minimum of the suffix a[i..] sits at i
      invariant forall q :: 0 <= i <= q < a.Length ==> a[i] <= a[q]
      invariant exchanges == 0 ==> a[..] == s
      invariant exchanges == 0 ==> forall p :: i < p < a.Length ==> !Less(a[p], a[p - 1])
      invariant exchanges > 0 ==> !Sorted(s)
      invariant multiset(a[..]) == multiset(s)
    {
      if Less(a[i], a[i - 1]) {
        if exchanges == 0 {
          InvertedPairIsUnsorted(s, i);
        }
        Exchange(a, i, i - 1);
        exchanges := exchanges + 1;
      }
      i := i - 1;
    }
    if exchanges == 0 {
      AdjacentSortedIffSorted(s);
    }
  }

  lemma InvertedPairIsUnsorted(s: seq<int>, p: int)
    requires 1 <= p < |s| && Less(s[p], s[p - 1])
    ensures !Sorted(s)
  {
  }

  /**
   * The array after one step of phase 2: `v == s[i]` is taken out of slot `i`
   * and put in slot `j`, and `s[j..i]` moves one slot to the right.
   */
  ghost predicate ShiftedInsert(s: seq<int>, r: seq<int>, i: int, j: int)
    requires 0 <= j <= i < |s|
  {
    && |r| == |s|
    && (forall p :: 0 <= p < j ==> r[p] == s[p])
    && r[j] == s[i]
    && (forall p :: j < p <= i ==> r[p] == s[p - 1])
    && (forall p :: i < p < |s| ==> r[p] == s[p])
  }

  lemma ShiftedInsertPermutes(s: seq<int>, r: seq<int>, i: int, j: int)
    requires 0 <= j <= i < |s|
    requires ShiftedInsert(s, r, i, j)
    ensures multiset(r) == multiset(s)
  {
    assert r[..j] == s[..j];
    assert r[j + 1..i + 1] == s[j..i];
    assert r[i + 1..] == s[i + 1..];
    calc {
      multiset(r);
      { assert r == r[..j] + [r[j]] + r[j + 1..i + 1] + r[i + 1..]; }
      multiset(s[..j]) + multiset{s[i]} + multiset(s[j..i]) + multiset(s[i + 1..]);
      { assert s == s[..j] + s[j..i] + [s[i]] + s[i + 1..]; }
      multiset(s);
    }
  }

  /**
   * Inserting `s[i]` after the last element of the sorted prefix `s[..i]` that
   * is not greater than it gives a sorted prefix `r[..i+1]`.
   */
  lemma ShiftedInsertSorts(s: seq<int>, r: seq<int>, i: int, j: int)
    requires 1 <= j <= i < |s|
    requires ShiftedInsert(s, r, i, j)
    requires forall p, q :: 0 <= p < q < i ==> s[p] <= s[q]
    requires s[j - 1] <= s[i]
    requires forall p :: j <= p < i ==> s[i] < s[p]
    ensures forall p, q :: 0 <= p < q <= i ==> r[p] <= r[q]
  {
  }

  /**
   * The inner loop of phase 2: while `v` is less than the element left of the
   * gap at `j`, that element moves one slot right into the gap. The loop has no
   * test on the left bound; it stays in bounds because `a[0]` is not greater
   * than `v`, so it stops at `j == 1` at the latest.
   */
  method ShiftLarger(a: array<int>, i: int, v: int) returns (j: int)
    requires 1 <= i < a.Length
    requires a[0] <= v
    modifies a
    ensures 1 <= j <= i
    ensures forall p :: 0 <= p <= j ==> a[p] == old(a[p])
    ensures forall p :: j < p <= i ==> a[p] == old(a[p - 1])
    ensures forall p :: i < p < a.Length ==> a[p] == old(a[p])
    ensures !Less(v, old(a[j - 1]))
    ensures forall p :: j <= p < i ==> v < old(a[p])
  {
    j := i;
    ghost var s := a[..];
    while Less(v, a[j - 1])
      invariant 1 <= j <= i
      invariant forall p :: 0 <= p < j ==> a[p] == s[p]
      invariant forall p :: j < p <= i ==> a[p] == s[p - 1]
      invariant forall p :: i < p < a.Length ==> a[p] == s[p]
      invariant forall p :: j <= p < i ==> v < s[p]
      invariant a[j] == s[j]
      decreases j
    {
      a[j] := a[j - 1];
      j := j - 1;
    }
  }

  /**
   * One step of phase 2: `v := a[i]` is held aside, the larger elements of the
   * sorted prefix shift one slot right, and `v` is written once into the gap.
   */
  method InsertByShifting(a: array<int>, i: int)
    requires 1 <= i < a.Length
    requires forall p, q :: 0 <= p < q < i ==> a[p] <= a[q]
    requires forall q :: 0 <= q < a.Length ==> a[0] <= a[q]
    modifies a
    ensures forall p, q :: 0 <= p < q <= i ==> a[p] <= a[q]
    ensures a[0] == old(a[0])
    ensures forall p :: i < p < a.Length ==> a[p] == old(a[p])
    ensures multiset(a[..]) == multiset(old(a[..]))
  {
    ghost var s := a[..];
    var v := a[i];
    var j := ShiftLarger(a, i, v);
    a[j] := v;
    assert ShiftedInsert(s, a[..], i, j);
    ShiftedInsertPermutes(s, a[..], i, j);
    ShiftedInsertSorts(s, a[..], i, j);
  }

  /**
   * Phase 2 of the improved insertion sort: insertion by shifting from index 2
   * on, relying on phase 1 having put a minimum at index 0.
   */
  method ShiftInsertionPass(a: array<int>)
    requires forall q :: 0 <= q < a.Length ==> a[0] <= a[q]
    modifies a
    ensures Sorted(a[..])
    ensures multiset(a[..]) == multiset(old(a[..]))
  {
    var i := 2;
    while i < a.Length
      invariant 2 <= i && (i <= a.Length || a.Length < 2)
      invariant forall p, q :: 0 <= p < q < i && q < a.Length ==> a[p] <= a[q]
      invariant forall q :: 0 <= q < a.Length ==> a[0] <= a[q]
      invariant multiset(a[..]) == multiset(old(a[..]))
    {
      InsertByShifting(a, i);
      forall q | 0 <= q < a.Length
        ensures a[0] <= a[q]
      {
        assert a[q] in multiset(a[..]);
      }
      i := i + 1;
    }
  }

  /**
   * The improved insertion sort: phase 1, an early return when it made no
   * exchange (the input was sorted and is left as it was), then phase 2.
   */
  method ImprovedInsertionSort(a: array<int>)
    modifies a
    ensures Sorted(a[..])
    ensures multiset(a[..]) == multiset(old(a[..]))
    ensures a[..] == SortedOf(old(a[..]))
    ensures Sorted(old(a[..])) ==> a[..] == old(a[..])
  {
    var exchanges := MoveMinimumToFront(a);
    if exchanges == 0 {
      SortedPermutationIsSortedOf(a[..], old(a[..]));
      return;
    }
    ShiftInsertionPass(a);
    SortedPermutationIsSortedOf(a[..], old(a[..]));
  }
}
