/** `InsertionSort.sort`: the in-place insertion sort of an `int[]`. */
module InsertionSort {
  import opened Sorting

  /** The first `n` entries of `s` (or all of them, if there are fewer) are in
      order. */
  predicate SortedPrefix(s: seq<int>, n: int)
  {
    forall i, j :: 0 <= i < j < n && j < |s| ==> s[i] <= s[j]
  }

  /** InsertionSort.java:7-22. Each pass takes the entry at `index` and swaps
      it leftwards past every strictly greater neighbour, so the prefix up to
      and including `index` is in order afterwards. */
  method Sort(a: array<int>)
    modifies a
    ensures Sorted(a[..])
    ensures multiset(a[..]) == multiset(old(a[..]))
    ensures a.Length <= 1 ==> a[..] == old(a[..])
  {
    var index := 1;
    while index < a.Length
      invariant 1 <= index
      invariant SortedPrefix(a[..], index)
      invariant multiset(a[..]) == multiset(old(a[..]))
      invariant a.Length <= 1 ==> a[..] == old(a[..])
      decreases a.Length - index
    {
      var curr := index;
      while curr > 0
        invariant 0 <= curr <= index < a.Length
        invariant forall i, j :: 0 <= i < j <= index && i != curr && j != curr ==> a[i] <= a[j]
        invariant forall j :: curr < j <= index ==> a[curr] <= a[j]
        invariant multiset(a[..]) == multiset(old(a[..]))
        decreases curr
      {
        if a[curr - 1] > a[curr] {
          Swap(a, curr, curr - 1);
          curr := curr - 1;
        } else {
          break;
        }
      }
      index := index + 1;
    }
  }
}
