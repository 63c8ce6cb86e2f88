/** `QuickSort`: recursive quicksort of an `int[]` around the first entry of
    each range. */
module QuickSort {
  import opened Sorting

  /** QuickSort.java:8-10: sorts the whole array. */
  method Sort(a: array<int>)
    modifies a
    ensures Sorted(a[..])
    ensures multiset(a[..]) == multiset(old(a[..]))
  {
    SortRange(a, 0, a.Length - 1);
    assert a[..][0..a.Length] == a[..];
    assert old(a[..])[0..a.Length] == old(a[..]);
  }

  /** `s` is `o` with `lo..hi` (both ends included) sorted: those entries
      are in order, they are the entries `o` had there, and the rest of `o`
      is unchanged. */
  ghost predicate SortedPart(s: seq<int>, o: seq<int>, lo: int, hi: int)
  {
    |s| == |o| && 0 <= lo <= hi + 1 <= |s| &&
    Sorted(s[lo..hi + 1]) && multiset(s[lo..hi + 1]) == multiset(o[lo..hi + 1]) &&
    s[..lo] == o[..lo] && s[hi + 1..] == o[hi + 1..]
  }

  /** QuickSort.java:12-19: sorts `a[lo..hi]` (both ends included) and leaves
      the rest of the array alone; an empty or one-entry range is untouched. */
  method SortRange(a: array<int>, lo: int, hi: int)
    requires 0 <= lo <= hi + 1 <= a.Length
    modifies a
    ensures SortedPart(a[..], old(a[..]), lo, hi)
    decreases hi - lo
  {
    if lo < hi {
      var p := Partition(a, lo, hi);
      ghost var mid := a[..];
      SortRange(a, lo, p - 1);
      ghost var half := a[..];
      SortRange(a, p + 1, hi);
      Combine(old(a[..]), mid, half, a[..], lo, p, hi);
    } else {
      assert a[..][lo..hi + 1] == old(a[..])[lo..hi + 1];
    }
  }

  /** Partitioning `o` into `mid` around the pivot at `p`, then sorting each
      side, leaves `lo..hi` of `o` sorted. */
  lemma {:induction false} Combine(o: seq<int>, mid: seq<int>, half: seq<int>, fin: seq<int>, lo: int, p: int, hi: int)
    requires 0 <= lo <= p <= hi < |mid| == |o|
    requires Rearranged(mid, o, lo, hi + 1)
    requires Parted(mid, lo, p, p, hi, mid[p])
    requires SortedPart(half, mid, lo, p - 1)
    requires SortedPart(fin, half, p + 1, hi)
    ensures SortedPart(fin, o, lo, hi)
  {
    var v := mid[p];
    Untouched(mid, half, fin, lo, p, hi);
    PartedSlices(mid, lo, p, hi, mid[lo..p], mid[p + 1..hi + 1]);
    SortedAround(mid[lo..p], fin[lo..p], v, mid[p + 1..hi + 1], fin[p + 1..hi + 1]);
    Split(fin, lo, p, hi);
    Split(mid, lo, p, hi);
    SameMiddle(mid, o, lo, hi + 1);
  }

  /** The two sides of the pivot, as slices, keep their bounds. */
  lemma PartedSlices(mid: seq<int>, lo: int, p: int, hi: int, lower: seq<int>, upper: seq<int>)
    requires 0 <= lo <= p <= hi < |mid|
    requires Parted(mid, lo, p, p, hi, mid[p])
    requires lower == mid[lo..p] && upper == mid[p + 1..hi + 1]
    ensures forall k :: 0 <= k < |lower| ==> lower[k] <= mid[p]
    ensures forall k :: 0 <= k < |upper| ==> mid[p] < upper[k]
  {
    forall k | 0 <= k < |lower| ensures lower[k] <= mid[p] {
      assert lower[k] == mid[lo + k];
    }
    forall k | 0 <= k < |upper| ensures mid[p] < upper[k] {
      assert upper[k] == mid[p + 1 + k];
    }
  }

  /** A range cut at `p`. */
  lemma Split(s: seq<int>, lo: int, p: int, hi: int)
    requires 0 <= lo <= p <= hi < |s|
    ensures s[lo..hi + 1] == s[lo..p] + [s[p]] + s[p + 1..hi + 1]
  {
  }

  /** What each recursive call of `SortRange` leaves alone: the pivot, and
      the parts of the array outside the range sorted. */
  lemma Untouched(mid: seq<int>, half: seq<int>, fin: seq<int>, lo: int, p: int, hi: int)
    requires 0 <= lo <= p <= hi < |mid|
    requires SortedPart(half, mid, lo, p - 1)
    requires SortedPart(fin, half, p + 1, hi)
    ensures fin[p] == mid[p]
    ensures fin[..lo] == mid[..lo] && fin[hi + 1..] == mid[hi + 1..]
    ensures Sorted(fin[lo..p]) && multiset(fin[lo..p]) == multiset(mid[lo..p])
    ensures multiset(fin[p + 1..hi + 1]) == multiset(mid[p + 1..hi + 1])
  {
    SamePrefix(fin, half, p + 1, lo, p + 1);
    SamePrefix(fin, half, p + 1, 0, lo);
    SameSuffix(half, mid, p, p, hi + 1);
    SameSuffix(half, mid, p, hi + 1, |mid|);
    assert fin[lo..p] == fin[lo..p + 1][..p - lo] && half[lo..p] == half[lo..p + 1][..p - lo];
    assert half[p + 1..hi + 1] == half[p..hi + 1][1..] && mid[p + 1..hi + 1] == mid[p..hi + 1][1..];
  }

  /** Sorting the entries at most `v` and, separately, those above `v`
      puts `v` in between. */
  lemma SortedAround(lower: seq<int>, lower': seq<int>, v: int, upper: seq<int>, upper': seq<int>)
    requires multiset(lower') == multiset(lower) && Sorted(lower')
    requires forall k :: 0 <= k < |lower| ==> lower[k] <= v
    requires multiset(upper') == multiset(upper) && Sorted(upper')
    requires forall k :: 0 <= k < |upper| ==> v < upper[k]
    ensures Sorted(lower' + [v] + upper')
    ensures multiset(lower' + [v] + upper') == multiset(lower + [v] + upper)
  {
    BoundKept(lower', lower, v);
    FloorKept(upper', upper, v);
    JoinSorted(lower', v, upper');
  }

  /** Sequences that agree up to `n` agree on every slice below `n`. */
  lemma SamePrefix(s: seq<int>, t: seq<int>, n: int, i: int, j: int)
    requires 0 <= i <= j <= n <= |s| && n <= |t| && s[..n] == t[..n]
    ensures s[i..j] == t[i..j]
    ensures forall k :: i <= k < j ==> s[k] == t[k]
  {
    assert forall k :: i <= k < j ==> s[k] == s[..n][k] && t[k] == t[..n][k];
  }

  /** Sequences of one length that agree from `n` on agree on every slice
      above `n`. */
  lemma SameSuffix(s: seq<int>, t: seq<int>, n: int, i: int, j: int)
    requires 0 <= n <= i <= j <= |s| == |t| && s[n..] == t[n..]
    ensures s[i..j] == t[i..j]
    ensures forall k :: i <= k < j ==> s[k] == t[k]
  {
    assert forall k :: i <= k < j ==> s[k] == s[n..][k - n] && t[k] == t[n..][k - n];
  }

  /** A sorted run at most `v`, then `v`, then a sorted run above `v`, is
      sorted. */
  lemma JoinSorted(x: seq<int>, v: int, y: seq<int>)
    requires Sorted(x) && Sorted(y)
    requires forall k :: 0 <= k < |x| ==> x[k] <= v
    requires forall k :: 0 <= k < |y| ==> v < y[k]
    ensures Sorted(x + [v] + y)
  {
  }

  /** QuickSort.java:21-36. With `a[lo]` as the pivot, the left scan stops at
      the first entry greater than the pivot (or at the end of the whole
      array), the right scan at the first entry not greater than it, and
      out-of-place pairs are swapped until the scans cross; the pivot is then
      swapped into the crossing point, which is returned: the entries before
      it are at most the pivot, those after it up to `hi` exceed it, and the
      entries only moved within `lo..hi`. */
  method Partition(a: array<int>, lo: int, hi: int) returns (p: int)
    requires 0 <= lo < hi < a.Length
    modifies a
    ensures lo <= p <= hi
    ensures a[p] == old(a[lo])
    ensures Parted(a[..], lo, p, p, hi, a[p])
    ensures Rearranged(a[..], old(a[..]), lo, hi + 1)
  {
    var pivot, left, right := lo, lo, hi;
    ghost var v := a[lo];
    while true
      invariant lo <= left < right <= hi
      invariant a[pivot] == v
      invariant Parted(a[..], lo, left + 1, right, hi, v)
      invariant left != lo ==> v < a[right]
      invariant Rearranged(a[..], old(a[..]), lo, hi + 1)
      decreases right - left
    {
      left, right := Round(a, pivot, hi, left, right);
      if !(left < right) {
        break;
      }
    }
    ghost var crossed := a[..];
    Swap(a, pivot, right);
    p := right;
    PivotPlaced(crossed, a[..], old(a[..]), lo, p, hi, v);
  }

  /** Swapping the pivot into the crossing point leaves it between the two
      parts. */
  lemma PivotPlaced(s: seq<int>, t: seq<int>, o: seq<int>, lo: int, p: int, hi: int, v: int)
    requires 0 <= lo <= p <= hi < |s| && s[lo] == v
    requires |o| == |s| && Rearranged(s, o, lo, hi + 1) && multiset(t) == multiset(s)
    requires Parted(s, lo, p + 1, p, hi, v)
    requires t == s[lo := s[p]][p := s[lo]]
    ensures t[p] == v
    ensures Parted(t, lo, p, p, hi, v)
    ensures Rearranged(t, o, lo, hi + 1)
  {
    assert t[..lo] == s[..lo];
    assert t[hi + 1..] == s[hi + 1..];
  }

  /** Between the scans: the entries from `lo` up to (not including) `left`
      are at most `v`, those after `right` up to `hi` exceed it. */
  ghost predicate Parted(s: seq<int>, lo: int, left: int, right: int, hi: int, v: int)
  {
    (forall k :: lo <= k < left && 0 <= k < |s| ==> s[k] <= v) &&
    (forall k :: right < k <= hi && 0 <= k < |s| ==> v < s[k])
  }

  /** QuickSort.java:24-30, one pass of the do-while: both scans, then the
      swap of the out-of-place pair if the scans have not crossed. */
  method Round(a: array<int>, pivot: int, hi: int, left: int, right: int) returns (l: int, r: int)
    requires 0 <= pivot <= left < right <= hi < a.Length
    requires Parted(a[..], pivot, left + 1, right, hi, a[pivot])
    requires left != pivot ==> a[pivot] < a[right]
    modifies a
    ensures a[pivot] == old(a[pivot])
    ensures Rearranged(a[..], old(a[..]), pivot, hi + 1)
    ensures pivot <= r <= hi && pivot < l
    ensures l < r ==> r - l < right - left && Parted(a[..], pivot, l + 1, r, hi, a[pivot]) && a[pivot] < a[r]
    ensures !(l < r) ==> Parted(a[..], pivot, r + 1, r, hi, a[pivot])
  {
    l := ScanRight(a, left, pivot);
    r := ScanLeft(a, right, pivot);
    if l < r {
      Swap(a, l, r);
    }
  }

  /** QuickSort.java:24-25: from `left`, skips every entry not greater than
      the pivot, stopping at the first greater one or at the end of the whole
      array. */
  method ScanRight(a: array<int>, left: int, pivot: int) returns (l: int)
    requires 0 <= left <= a.Length && 0 <= pivot < a.Length
    ensures left <= l <= a.Length
    ensures forall k :: left <= k < l ==> a[k] <= a[pivot]
    ensures l < a.Length ==> a[pivot] < a[l]
  {
    l := left;
    while l < a.Length && a[l] <= a[pivot]
      invariant left <= l <= a.Length
      invariant forall k :: left <= k < l ==> a[k] <= a[pivot]
      decreases a.Length - l
    {
      l := l + 1;
    }
  }

  /** QuickSort.java:26-27: from `right`, skips every entry greater than the
      pivot; it stops at the pivot itself at the latest. */
  method ScanLeft(a: array<int>, right: int, pivot: int) returns (r: int)
    requires 0 <= pivot <= right < a.Length
    ensures pivot <= r <= right
    ensures forall k :: r < k <= right ==> a[pivot] < a[k]
    ensures a[r] <= a[pivot]
  {
    r := right;
    while a[r] > a[pivot]
      invariant pivot <= r <= right
      invariant forall k :: r < k <= right ==> a[pivot] < a[k]
      decreases r
    {
      r := r - 1;
    }
  }
}
