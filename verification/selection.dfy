/** `SelectionSorting.sort`, on an array parameter in place of `values`. */
module Selection {
  import opened Ordering

  /**
   * The inner scan of selection sort: the index of the first smallest element
   * of `a[from..]`. The scan replaces its candidate only on a strictly smaller
   * element, so earlier positions hold strictly larger values.
   */
  method MinIndex(a: array<int>, from: int) returns (m: int)
    requires 0 <= from < a.Length
    ensures from <= m < a.Length
    ensures forall q :: from <= q < a.Length ==> a[m] <= a[q]
    ensures forall q :: from <= q < m ==> a[m] < a[q]
  {
    m := from;
    var j := from + 1;
    while j < a.Length
      invariant from <= m < j <= a.Length
      invariant forall q :: from <= q < j ==> a[m] <= a[q]
      invariant forall q :: from <= q < m ==> a[m] < a[q]
    {
      if Less(a[j], a[m]) {
        m := j;
      }
      j := j + 1;
    }
  }

  /**
   * Selection sort: position `i` receives the smallest element of `a[i..]`,
   * for every `i` including the last (a self-exchange).
   */
  method SelectionSort(a: array<int>)
    modifies a
    ensures Sorted(a[..])
    ensures multiset(a[..]) == multiset(old(a[..]))
    ensures a[..] == SortedOf(old(a[..]))
    ensures Sorted(old(a[..])) ==> a[..] == old(a[..])
  {
    var i := 0;
    while i < a.Length
      invariant 0 <= i <= a.Length
      // the prefix is sorted ...
      invariant forall p, q :: 0 <= p < q < i ==> a[p] <= a[q]
      // ... and holds the smallest elements
      invariant forall p, q :: 0 <= p < i <= q < a.Length ==> a[p] <= a[q]
      invariant multiset(a[..]) == multiset(old(a[..]))
    {
      var m := MinIndex(a, i);
      Exchange(a, i, m);
      i := i + 1;
    }
    SortedPermutationIsSortedOf(a[..], old(a[..]));
    if Sorted(old(a[..])) {
      SortedOfSortedIsIdentity(old(a[..]));
    }
  }
}
