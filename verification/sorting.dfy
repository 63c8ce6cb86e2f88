/** What the three in-place integer sorts share: the ordering predicates and
    the `swap(arr, i, j)` helper each of them defines identically
    (InsertionSort.java:24-28, QuickSort.java:38-42, HeapSort.java:50-54). */
module Sorting {

  /** Non-decreasing order. */
  predicate Sorted(s: seq<int>)
  {
    forall i, j :: 0 <= i < j < |s| ==> s[i] <= s[j]
  }

  /** Every element of `s` is at most every element of `t`. */
  predicate AllBelow(s: seq<int>, t: seq<int>)
  {
    forall i, j :: 0 <= i < |s| && 0 <= j < |t| ==> s[i] <= t[j]
  }

  /** `swap(arr, i, j)`: the two entries trade places and nothing else changes. */
  method Swap(a: array<int>, i: int, j: int)
    requires 0 <= i < a.Length && 0 <= j < a.Length
    modifies a
    ensures a[..] == old(a[..])[i := old(a[j])][j := old(a[i])]
    ensures multiset(a[..]) == multiset(old(a[..]))
  {
    var temp := a[i];
    a[i] := a[j];
    a[j] := temp;
  }

  /** `s` holds the entries of `t`, moved only within `lo..hi-1`. */
  ghost predicate Rearranged(s: seq<int>, t: seq<int>, lo: int, hi: int)
  {
    |s| == |t| && 0 <= lo <= hi <= |t| &&
    multiset(s) == multiset(t) && s[..lo] == t[..lo] && s[hi..] == t[hi..]
  }

  /** A swap within `lo..hi-1` keeps the entries moved only there. */
  lemma SwapWithin(s: seq<int>, t: seq<int>, o: seq<int>, lo: int, hi: int, x: int, y: int)
    requires Rearranged(s, o, lo, hi) && lo <= x < hi && lo <= y < hi
    requires t == s[x := s[y]][y := s[x]]
    ensures Rearranged(t, o, lo, hi)
  {
    assert t[..lo] == s[..lo] && t[hi..] == s[hi..];
  }

  /** Two arrays with the same entries that agree outside `lo..hi` have the
      same entries inside it. */
  lemma {:induction false} SameMiddle(s: seq<int>, t: seq<int>, lo: int, hi: int)
    requires 0 <= lo <= hi <= |s| == |t|
    requires multiset(s) == multiset(t) && s[..lo] == t[..lo] && s[hi..] == t[hi..]
    ensures multiset(s[lo..hi]) == multiset(t[lo..hi])
  {
    assert s == s[..lo] + s[lo..hi] + s[hi..];
    assert t == t[..lo] + t[lo..hi] + t[hi..];
    forall x ensures multiset(s[lo..hi])[x] == multiset(t[lo..hi])[x] {
      assert multiset(s)[x] == multiset(s[..lo])[x] + multiset(s[lo..hi])[x] + multiset(s[hi..])[x];
      assert multiset(t)[x] == multiset(t[..lo])[x] + multiset(t[lo..hi])[x] + multiset(t[hi..])[x];
    }
  }

  /** The entries of a slice that keeps its entries stay below any bound the
      old entries were below. */
  lemma {:induction false} BoundKept(s: seq<int>, t: seq<int>, v: int)
    requires multiset(s) == multiset(t)
    requires forall k :: 0 <= k < |t| ==> t[k] <= v
    ensures forall k :: 0 <= k < |s| ==> s[k] <= v
  {
    forall k | 0 <= k < |s| ensures s[k] <= v {
      assert s[k] in multiset(t);
    }
  }

  /** The same, for a lower bound. */
  lemma {:induction false} FloorKept(s: seq<int>, t: seq<int>, v: int)
    requires multiset(s) == multiset(t)
    requires forall k :: 0 <= k < |t| ==> v < t[k]
    ensures forall k :: 0 <= k < |s| ==> v < s[k]
  {
    forall k | 0 <= k < |s| ensures v < s[k] {
      assert s[k] in multiset(t);
    }
  }
}
