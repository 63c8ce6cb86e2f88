/** `HeapSort.sort`: in-place heapsort of an `int[]` with a max-heap laid out
    in the array (children of index `k` at `2k+1` and `2k+2`). */
module HeapSort {
  import opened Sorting

  /** The index of the parent of index `c >= 1`. */
  function Parent(c: int): int
  {
    (c - 1) / 2
  }

  /** Max-heap order within `0..end-1` for every parent at index `lo` or
      above, except possibly the parent at `hole`. */
  ghost predicate HeapBut(s: seq<int>, lo: int, end: int, hole: int)
    requires end <= |s|
  {
    forall c :: 1 <= c < end && lo <= Parent(c) && Parent(c) != hole ==> s[c] <= s[Parent(c)]
  }

  /** Max-heap order within `0..end-1` for every parent at index `lo` or above. */
  ghost predicate HeapFrom(s: seq<int>, lo: int, end: int)
    requires end <= |s|
  {
    HeapBut(s, lo, end, -1)
  }

  /** While a hole sinks, its parent (when that is still inside the part being
      repaired) dominates the hole's children. */
  ghost predicate Covered(s: seq<int>, lo: int, end: int, hole: int)
    requires 0 <= lo && 0 <= hole <= |s| && end <= |s|
  {
    lo < hole ==> forall c :: 1 <= c < end && Parent(c) == hole ==> s[c] <= s[Parent(hole)]
  }

  /** HeapSort.java:18-35. Sinks the entry at `i` below the larger of its
      children until it dominates them or reaches the bottom of the heap
      `0..end-1`; if every parent below `i` was in heap order, every parent
      from `i` on is afterwards. Only entries in `i..end-1` move. */
  method PercolateDown(a: array<int>, i: int, end: int)
    requires 0 <= i <= end <= a.Length
    requires HeapFrom(a[..], i + 1, end)
    modifies a
    ensures HeapFrom(a[..], i, end)
    ensures Rearranged(a[..], old(a[..]), i, end)
  {
    var parent := i;
    var left := (2 * parent) + 1;
    var right := (2 * parent) + 2;
    while right <= end
      invariant i <= parent <= end && left == 2 * parent + 1 && right == 2 * parent + 2
      invariant HeapBut(a[..], i, end, parent) && Covered(a[..], i, end, parent)
      invariant Rearranged(a[..], old(a[..]), i, end)
      decreases end - parent
    {
      var maxChild := left;
      if right < end && a[right] > a[left] {
        maxChild := right;
      }
      if a[parent] > a[maxChild] {
        Settled(a[..], i, end, parent);
        return;
      }
      ghost var before := a[..];
      Swap(a, parent, maxChild);
      Sink(before, a[..], i, end, parent, maxChild);
      SwapWithin(before, a[..], old(a[..]), i, end, parent, maxChild);
      parent := maxChild;
      left := (2 * parent) + 1;
      right := (2 * parent) + 2;
    }
    Bottom(a[..], i, end, parent);
  }

  /** A hole that dominates both its children closes. */
  lemma Settled(s: seq<int>, lo: int, end: int, hole: int)
    requires 0 <= lo <= hole && 2 * hole + 2 <= end <= |s|
    requires HeapBut(s, lo, end, hole) && Covered(s, lo, end, hole)
    requires s[2 * hole + 1] < s[hole]
    requires 2 * hole + 2 < end ==> s[2 * hole + 2] < s[hole]
    ensures HeapFrom(s, lo, end)
  {
    forall c | 1 <= c < end && lo <= Parent(c) && Parent(c) == hole
      ensures s[c] <= s[Parent(c)]
    {
      assert c == 2 * hole + 1 || c == 2 * hole + 2;
    }
  }

  /** A hole without children inside the heap closes. */
  lemma Bottom(s: seq<int>, lo: int, end: int, hole: int)
    requires 0 <= lo <= hole && end < 2 * hole + 2 && end <= |s|
    requires HeapBut(s, lo, end, hole)
    ensures HeapFrom(s, lo, end)
  {
    forall c | 1 <= c < end && lo <= Parent(c)
      ensures Parent(c) != hole
    {
    }
  }

  /** Swapping the hole with its larger child moves the hole down one level. */
  lemma Sink(s: seq<int>, t: seq<int>, lo: int, end: int, hole: int, child: int)
    requires 0 <= lo <= hole && end <= |s|
    requires child == 2 * hole + 1 || child == 2 * hole + 2
    requires child < end
    requires HeapBut(s, lo, end, hole) && Covered(s, lo, end, hole)
    requires child == 2 * hole + 1 && 2 * hole + 2 < end ==> s[2 * hole + 2] <= s[child]
    requires child == 2 * hole + 2 ==> s[2 * hole + 1] <= s[child]
    requires s[hole] <= s[child]
    requires t == s[hole := s[child]][child := s[hole]]
    ensures HeapBut(t, lo, end, child) && Covered(t, lo, end, child)
  {
    assert Parent(child) == hole;
    forall c | 1 <= c < end && lo <= Parent(c) && Parent(c) != child
      ensures t[c] <= t[Parent(c)]
    {
      if Parent(c) == hole {
        assert c == 2 * hole + 1 || c == 2 * hole + 2;
      } else if c == hole {
        assert lo < hole;
      }
    }
    forall c | 1 <= c < end && Parent(c) == child
      ensures t[c] <= t[Parent(child)]
    {
      assert c != child && c != hole;
    }
  }

  /** The root of a heap is its largest entry. */
  lemma {:induction false} RootIsMax(s: seq<int>, end: int, k: int)
    requires 0 <= k < end <= |s|
    requires HeapFrom(s, 0, end)
    ensures s[k] <= s[0]
    decreases k
  {
    if k > 0 {
      RootIsMax(s, end, Parent(k));
    }
  }

  /** HeapSort.java:37-48. Builds a max-heap bottom-up, then repeatedly swaps
      the root behind the shrinking heap and repairs the heap. */
  method Sort(a: array<int>)
    modifies a
    ensures Sorted(a[..])
    ensures multiset(a[..]) == multiset(old(a[..]))
  {
    var i := (a.Length / 2) - 1;
    while i >= 0
      invariant -1 <= i < a.Length
      invariant HeapFrom(a[..], i + 1, a.Length)
      invariant multiset(a[..]) == multiset(old(a[..]))
      decreases i
    {
      PercolateDown(a, i, a.Length);
      i := i - 1;
    }
    var end := a.Length - 1;
    while end > 0
      invariant -1 <= end < a.Length
      invariant HeapFrom(a[..], 0, end + 1)
      invariant Sorted(a[end + 1..]) && AllBelow(a[..end + 1], a[end + 1..])
      invariant multiset(a[..]) == multiset(old(a[..]))
      decreases end
    {
      ghost var heap := a[..];
      Swap(a, 0, end);
      ghost var swapped := a[..];
      SwapTop(heap, swapped, end);
      PercolateDown(a, 0, end);
      SameMiddle(a[..], swapped, 0, end);
      BelowKept(a[..], swapped, end);
      end := end - 1;
    }
    assert a[..] == a[..end + 1] + a[end + 1..];
  }

  /** Moving the root of the heap `0..end` to `end` extends the sorted tail
      by one entry and leaves a heap below the root of `0..end-1`. */
  lemma SwapTop(s: seq<int>, t: seq<int>, end: int)
    requires 0 < end < |s|
    requires HeapFrom(s, 0, end + 1)
    requires Sorted(s[end + 1..]) && AllBelow(s[..end + 1], s[end + 1..])
    requires t == s[0 := s[end]][end := s[0]]
    ensures HeapFrom(t, 1, end)
    ensures Sorted(t[end..]) && AllBelow(t[..end], t[end..])
  {
    forall k | 0 <= k <= end ensures s[k] <= s[0] {
      RootIsMax(s, end + 1, k);
    }
  }

  /** Rearranging the heap part keeps it below the sorted tail. */
  lemma BelowKept(u: seq<int>, t: seq<int>, end: int)
    requires 0 <= end <= |u| == |t|
    requires multiset(u[..end]) == multiset(t[..end]) && u[end..] == t[end..]
    requires AllBelow(t[..end], t[end..])
    ensures AllBelow(u[..end], u[end..])
  {
    forall i, j | 0 <= i < end && 0 <= j < |u| - end ensures u[..end][i] <= u[end..][j] {
      assert u[..end][i] in multiset(t[..end]);
    }
  }
}
