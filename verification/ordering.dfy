/**
 * Ordering primitives shared by every algorithm of the catalog: the strict
 * comparison `less`, the in-place `exchangeElements`, the `isSorted` check,
 * and the specification of "sorted" together with a reference sort.
 *
 * Elements are `Integer`s compared with `compareTo`, so they are modelled as
 * `int` and `less` as `<`.
 */
module Ordering {

  /** `less(comp1, comp2)`: the first element orders strictly before the second. */
  function Less(x: int, y: int): (r: bool) {
    x < y
  }

  /**
   * `less` is the strict order that `compareTo(...) < 0` gives on `Integer`:
   * irreflexive, asymmetric and transitive, and two elements neither of which
   * is less than the other are equal, so `!less(y, x)` means "x is at most y".
   */
  lemma LessIsStrictTotalOrder(x: int, y: int, z: int)
    ensures !Less(x, x)
    ensures Less(x, y) ==> !Less(y, x)
    ensures Less(x, y) && Less(y, z) ==> Less(x, z)
    ensures !Less(x, y) && !Less(y, x) ==> x == y
    ensures !Less(y, x) <==> x <= y
  {
  }

  /** Every pair of positions is in order: the property the sorts promise. */
  ghost predicate Sorted(s: seq<int>) {
    forall p, q :: 0 <= p < q < |s| ==> s[p] <= s[q]
  }

  /**
   * No element is less than the element `h` positions before it. With `h == 1`
   * this is exactly what `isSorted` tests; Shell sort's passes establish it for
   * larger `h`.
   */
  ghost predicate HSorted(s: seq<int>, h: nat) {
    forall p :: h <= p < |s| ==> !Less(s[p], s[p - h])
  }

  lemma {:induction false} ChainInOrder(s: seq<int>, p: int, q: int)
    requires HSorted(s, 1)
    requires 0 <= p <= q < |s|
    ensures s[p] <= s[q]
    decreases q - p
  {
    if p < q {
      ChainInOrder(s, p, q - 1);
    }
  }

  /** Adjacent pairs in order is the same as every pair in order. */
  lemma AdjacentSortedIffSorted(s: seq<int>)
    ensures HSorted(s, 1) <==> Sorted(s)
  {
    if HSorted(s, 1) {
      forall p, q | 0 <= p < q < |s|
        ensures s[p] <= s[q]
      {
        ChainInOrder(s, p, q);
      }
    }
  }

  /**
   * `exchangeElements(comp, i, j)`: the old `a[j]` lands at `i`, the old `a[i]`
   * at `j`, nothing else moves; with `i == j` the array is unchanged.
   */
  method Exchange(a: array<int>, i: int, j: int)
    requires 0 <= i < a.Length && 0 <= j < a.Length
    modifies a
    ensures a[i] == old(a[j]) && a[j] == old(a[i])
    ensures forall p :: 0 <= p < a.Length && p != i && p != j ==> a[p] == old(a[p])
    ensures i == j ==> a[..] == old(a[..])
    ensures multiset(a[..]) == multiset(old(a[..]))
  {
    var t := a[i];
    a[i] := a[j];
    a[j] := t;
  }

  /**
   * `isSorted(comp)`: scans the adjacent pairs and answers false at the first
   * inverted one; true for lengths 0 and 1.
   */
  method IsSorted(a: array<int>) returns (r: bool)
    ensures r <==> Sorted(a[..])
  {
    var i := 1;
    while i < a.Length
      invariant 1 <= i <= a.Length || a.Length == 0
      invariant forall p :: 1 <= p < i && p < a.Length ==> !Less(a[p], a[p - 1])
    {
      if Less(a[i], a[i - 1]) {
        return false;
      }
      i := i + 1;
    }
    AdjacentSortedIffSorted(a[..]);
    return true;
  }

  /* ---------- A reference sort, to say what every algorithm computes ---------- */

  /** Insert `x` before the first element of `s` that is not less than it. */
  function Insert(x: int, s: seq<int>): (r: seq<int>) {
    if s == [] || !Less(s[0], x) then [x] + s else [s[0]] + Insert(x, s[1..])
  }

  /** The sorted arrangement of `s`, defined by functional insertion. */
  function SortedOf(s: seq<int>): (r: seq<int>) {
    if s == [] then [] else Insert(s[0], SortedOf(s[1..]))
  }

  lemma SortedTail(s: seq<int>)
    requires Sorted(s) && s != []
    ensures Sorted(s[1..])
  {
  }

  /** The first element of a sorted sequence is at most each of its elements. */
  lemma SortedHeadIsLeast(s: seq<int>, x: int)
    requires Sorted(s) && x in multiset(s)
    ensures s[0] <= x
  {
    assert x in s;
    var k :| 0 <= k < |s| && s[k] == x;
  }

  /** Putting `x` in front of a sorted `s` whose elements are all at least `x`. */
  lemma SortedCons(x: int, s: seq<int>)
    requires Sorted(s)
    requires forall y :: y in multiset(s) ==> x <= y
    ensures Sorted([x] + s)
  {
    forall q | 0 <= q < |s|
      ensures x <= s[q]
    {
      assert s[q] in multiset(s);
    }
  }

  lemma {:induction false} InsertKeepsSortedAndElements(x: int, s: seq<int>)
    requires Sorted(s)
    ensures Sorted(Insert(x, s))
    ensures multiset(Insert(x, s)) == multiset(s) + multiset{x}
  {
    if s == [] {
    } else if !Less(s[0], x) {
      forall y | y in multiset(s)
        ensures x <= y
      {
        SortedHeadIsLeast(s, y);
      }
      SortedCons(x, s);
    } else {
      SortedTail(s);
      InsertKeepsSortedAndElements(x, s[1..]);
      assert s == [s[0]] + s[1..];
      var r := Insert(x, s[1..]);
      forall y | y in multiset(r)
        ensures s[0] <= y
      {
        if y != x {
          assert y in multiset(s);
          SortedHeadIsLeast(s, y);
        }
      }
      SortedCons(s[0], r);
    }
  }

  /** The reference sort returns a sorted permutation of its input. */
  lemma {:induction false} SortedOfIsSortedPermutation(s: seq<int>)
    ensures Sorted(SortedOf(s))
    ensures multiset(SortedOf(s)) == multiset(s)
  {
    if s != [] {
      SortedOfIsSortedPermutation(s[1..]);
      InsertKeepsSortedAndElements(s[0], SortedOf(s[1..]));
      assert s == [s[0]] + s[1..];
    }
  }

  /**
   * Two sorted sequences holding the same multiset of elements are equal:
   * every algorithm that returns a sorted permutation returns the same array.
   */
  lemma {:induction false} SortedPermutationIsUnique(r: seq<int>, s: seq<int>)
    requires Sorted(r) && Sorted(s)
    requires multiset(r) == multiset(s)
    ensures r == s
  {
    if r == [] || s == [] {
      assert |multiset(r)| == |r| && |multiset(s)| == |s|;
    } else {
      assert r[0] in multiset(r) && s[0] in multiset(s);
      SortedHeadIsLeast(r, s[0]);
      SortedHeadIsLeast(s, r[0]);
      assert r == [r[0]] + r[1..] && s == [s[0]] + s[1..];
      assert r[0] == s[0];
      assert multiset(r[1..]) == multiset(r) - multiset{r[0]};
      assert multiset(s[1..]) == multiset(s) - multiset{s[0]};
      SortedTail(r);
      SortedTail(s);
      SortedPermutationIsUnique(r[1..], s[1..]);
    }
  }

  /** A sorted permutation of `s` is the reference sort of `s`. */
  lemma SortedPermutationIsSortedOf(r: seq<int>, s: seq<int>)
    requires Sorted(r) && multiset(r) == multiset(s)
    ensures r == SortedOf(s)
  {
    SortedOfIsSortedPermutation(s);
    SortedPermutationIsUnique(r, SortedOf(s));
  }

  /** Sorting an already sorted sequence gives it back unchanged. */
  lemma SortedOfSortedIsIdentity(s: seq<int>)
    requires Sorted(s)
    ensures SortedOf(s) == s
  {
    SortedPermutationIsSortedOf(s, s);
  }
}
