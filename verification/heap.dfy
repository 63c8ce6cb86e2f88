/** `notes.heaps.Heap`: a min-heap kept in a list `data`, of which the first
    `free` entries are the heap (children of index `k` at `2k+1`, `2k+2`). */
module Heaps {
  import opened Java
  import HeapSort

  /** Min-heap order for every parent at index `lo` or above, except possibly
      the parent at `hole`. */
  ghost predicate OrderedBut(s: seq<int>, lo: int, hole: int)
  {
    forall c :: 1 <= c < |s| && lo <= HeapSort.Parent(c) && HeapSort.Parent(c) != hole ==>
      s[HeapSort.Parent(c)] <= s[c]
  }

  /** Min-heap order for every parent at index `lo` or above. */
  ghost predicate OrderedFrom(s: seq<int>, lo: int)
  {
    OrderedBut(s, lo, -1)
  }

  /** Every entry is at most its children. */
  ghost predicate MinHeap(s: seq<int>)
  {
    OrderedFrom(s, 0)
  }

  /** While a hole sinks, its parent (inside the part being repaired) is at
      most the hole's children. */
  ghost predicate Covered(s: seq<int>, lo: int, hole: int)
    requires 0 <= lo && 0 <= hole <= |s|
  {
    lo < hole ==> forall c :: 1 <= c < |s| && HeapSort.Parent(c) == hole ==> s[HeapSort.Parent(hole)] <= s[c]
  }

  /** While an entry rises, every parent/child pair is in order except the one
      above position `p`. */
  ghost predicate OrderedButAbove(s: seq<int>, p: int)
  {
    forall c :: 1 <= c < |s| && c != p ==> s[HeapSort.Parent(c)] <= s[c]
  }

  /** While an entry rises, the parent of position `p` is at most `p`'s
      children. */
  ghost predicate Bridged(s: seq<int>, p: int)
    requires 0 <= p < |s|
  {
    1 <= p ==> forall c :: 1 <= c < |s| && HeapSort.Parent(c) == p ==> s[HeapSort.Parent(p)] <= s[c]
  }

  class Heap {
    var data: seq<int>
    var free: int

    /** The invariant the operations keep: the list is exactly the heap, in
        min-heap order. */
    ghost predicate Valid()
      reads this
    {
      free == |data| && MinHeap(data)
    }

    /** The weaker state `add` needs: the first `free` entries are in
        min-heap order, and any entries after them are carried along. */
    ghost predicate HeapPrefix()
      reads this
    {
      0 <= free <= |data| && MinHeap(data[..free])
    }

    /** Heap.java:10-13: an empty heap (the capacity is only a hint). */
    constructor (size: int)
      requires 0 <= size
      ensures Valid() && data == [] && free == 0
    {
      data := [];
      free := 0;
    }

    /** Heap.java:15-19 as written: adopts the list, sets `free` to 0 and runs
        the as-written `heapify`. */
    constructor FromListAsWritten(l: seq<int>)
      ensures free == 0 && multiset(data) == multiset(l)
      ensures |l| > 0 ==> data[0] == l[0]
      ensures OrderedFrom(data, 1)
    {
      data := l;
      free := 0;
      new;
      HeapifyAsWritten();
    }

    /** Heap.java:15-19 corrected: `free` counts the adopted entries and the
        corrected `heapify` orders all of them. */
    constructor FromList(l: seq<int>)
      ensures Valid() && multiset(data) == multiset(l)
    {
      data := l;
      free := |l|;
      new;
      Heapify();
    }

    /** Heap.java:21-24 as written: percolates every parent from `size/2`
        down to 1, never the root, so the root entry stays where it was. */
    method HeapifyAsWritten()
      modifies this
      ensures free == old(free) && multiset(data) == multiset(old(data))
      ensures |data| == |old(data)| && (|data| > 0 ==> data[0] == old(data[0]))
      ensures OrderedFrom(data, 1)
    {
      var i := |data| / 2;
      while i > 0
        invariant 0 <= i <= |data| / 2 && |data| == |old(data)|
        invariant OrderedFrom(data, i + 1)
        invariant |data| > 0 ==> data[0] == old(data[0])
        invariant free == old(free) && multiset(data) == multiset(old(data))
        decreases i
      {
        PercolateDown(i);
        i := i - 1;
      }
    }

    /** Heap.java:21-24 corrected (the loop runs down to index 0): the whole
        list ends in min-heap order. */
    method Heapify()
      modifies this
      ensures free == old(free) && multiset(data) == multiset(old(data)) && |data| == |old(data)|
      ensures MinHeap(data)
    {
      var i := |data| / 2;
      while i >= 0
        invariant -1 <= i <= |data| / 2 && |data| == |old(data)|
        invariant OrderedFrom(data, i + 1)
        invariant free == old(free) && multiset(data) == multiset(old(data))
        decreases i
      {
        PercolateDown(i);
        i := i - 1;
      }
    }

    /** Heap.java:26-45. Sinks the entry at `i` below the smaller of its
        children (over the whole list) until it is at most both or reaches
        the bottom; if every parent below `i` was in order, every parent from
        `i` on is afterwards. Only entries at `i` or later move. */
    method PercolateDown(i: int)
      requires 0 <= i <= |data|
      requires OrderedFrom(data, i + 1)
      modifies this
      ensures OrderedFrom(data, i)
      ensures free == old(free) && |data| == |old(data)|
      ensures multiset(data) == multiset(old(data)) && data[..i] == old(data[..i])
    {
      var parent := i;
      var left := (2 * parent) + 1;
      var right := (2 * parent) + 2;
      while right <= |data|
        invariant i <= parent <= |data| && left == 2 * parent + 1 && right == 2 * parent + 2
        invariant OrderedBut(data, i, parent) && Covered(data, i, parent)
        invariant free == old(free) && |data| == |old(data)|
        invariant multiset(data) == multiset(old(data)) && data[..i] == old(data[..i])
        decreases |data| - parent
      {
        var minChild := left;
        if right != |data| && data[left] > data[right] {
          minChild := right;
        }
        if data[parent] < data[minChild] {
          Settled(data, i, parent, minChild);
          return;
        }
        ghost var before := data;
        Swap(parent, minChild);
        Sink(before, data, i, parent, minChild);
        parent := minChild;
        left := (2 * parent) + 1;
        right := (2 * parent) + 2;
      }
      Bottom(data, i, parent);
    }

    /** Heap.java:47-59. Inserts `item` at position `free` and swaps it up
        past every strictly greater parent; Java's `(0 - 1) / 2 == 0` makes
        the loop stop at the root. Only the first `free` entries take part,
        so the operation is stated from `HeapPrefix`, which the as-written
        list constructor also establishes (there `item` goes in at index 0
        and the adopted entries are carried along behind it). */
    method Add(item: int)
      requires HeapPrefix()
      modifies this
      ensures HeapPrefix() && free == old(free) + 1
      ensures multiset(data[..free]) == multiset(old(data[..free])) + multiset{item}
      ensures data[free..] == old(data[free..])
      ensures old(Valid()) ==> Valid() && multiset(data) == multiset(old(data)) + multiset{item}
    {
      ghost var rest := data[free..];
      ghost var h := data[..free] + [item];
      data := data[..free] + [item] + data[free..];
      var p := free;
      var parent := Div(free - 1, 2);
      while p >= 0 && data[parent] > item
        invariant data == h + rest && |h| == free + 1 && free == old(free)
        invariant 0 <= p <= free && h[p] == item
        invariant parent == Div(p - 1, 2)
        invariant OrderedButAbove(h, p) && Bridged(h, p)
        invariant multiset(h) == multiset(old(data[..free])) + multiset{item}
        decreases p
      {
        ghost var before := h;
        Swap(parent, p);
        h := SwapInPrefix(before, rest, data, parent, p);
        Rise(before, h, p);
        p := parent;
        parent := Div(p - 1, 2);
      }
      Risen(h, p);
      Grown(data, h, rest, old(data), free, item);
      free := free + 1;
    }

    /** Heap.java:61-72 as written: takes the root, moves the last entry to
        the root and sinks it. With a single entry, `data.remove(0)` empties
        the list and the `set(0, ...)` that follows throws, leaving `free`
        at 1. Stated for a zero `free` whatever the list holds (as the
        as-written list constructor leaves it) and for a valid heap. */
    method RemoveAsWritten() returns (r: Outcome<int>)
      requires free == 0 || Valid()
      modifies this
      ensures old(free) == 0 ==> r == Thrown(IllegalState) && data == old(data) && free == old(free)
      ensures old(free) == 1 ==> r == Thrown(IndexOutOfBounds) && data == [] && free == 1
      ensures old(free) >= 2 ==> (r == Ok(old(data[0])) && Valid() && free == old(free) - 1 &&
                                  multiset(data) == multiset(old(data)) - multiset{old(data[0])})
    {
      if free == 0 {
        return Thrown(IllegalState);
      }
      var temp := data[0];
      var last := data[free - 1];
      data := data[..free - 1] + data[free..];
      if |data| == 0 {
        return Thrown(IndexOutOfBounds);
      }
      data := data[0 := last];
      Shrunk(old(data), data);
      PercolateDown(0);
      free := free - 1;
      r := Ok(temp);
    }

    /** Heap.java:61-72 corrected: the last entry replaces the root only when
        another entry remains, so removing the only entry empties the heap. */
    method Remove() returns (r: Outcome<int>)
      requires Valid()
      modifies this
      ensures old(free) == 0 ==> r == Thrown(IllegalState) && data == old(data) && free == old(free)
      ensures old(free) > 0 ==> (r == Ok(old(data[0])) && Valid() && free == old(free) - 1 &&
                                 multiset(data) == multiset(old(data)) - multiset{old(data[0])})
    {
      if free == 0 {
        return Thrown(IllegalState);
      }
      var temp := data[0];
      var last := data[free - 1];
      data := data[..free - 1] + data[free..];
      if |data| > 0 {
        data := data[0 := last];
        Shrunk(old(data), data);
        PercolateDown(0);
      }
      free := free - 1;
      r := Ok(temp);
    }

    /** Heap.java:74-78: the root, which is the least entry; an empty heap
        throws. */
    method Top() returns (r: Outcome<int>)
      ensures free == 0 ==> r == Thrown(IllegalState)
      ensures Valid() && free != 0 ==> (r.Ok? && r.value == data[0] &&
                                        forall k :: 0 <= k < |data| ==> r.value <= data[k])
    {
      if free == 0 {
        return Thrown(IllegalState);
      }
      if |data| == 0 {
        return Thrown(IndexOutOfBounds);
      }
      r := Ok(data[0]);
      if Valid() {
        forall k | 0 <= k < |data| ensures data[0] <= data[k] {
          RootIsMin(data, k);
        }
      }
    }

    /** Heap.java:80-84: exchanges two entries and changes nothing else. */
    method Swap(i: int, j: int)
      requires 0 <= i < |data| && 0 <= j < |data|
      modifies this
      ensures data == old(data)[i := old(data[j])][j := old(data[i])]
      ensures free == old(free) && multiset(data) == multiset(old(data))
    {
      var temp := data[i];
      data := data[i := data[j]];
      data := data[j := temp];
    }
  }

  /** The root of a min-heap is its least entry. */
  lemma {:induction false} RootIsMin(s: seq<int>, k: int)
    requires 0 <= k < |s| && MinHeap(s)
    ensures s[0] <= s[k]
    decreases k
  {
    if k > 0 {
      RootIsMin(s, HeapSort.Parent(k));
    }
  }

  /** Exchanging two entries of the heap part of a list exchanges them in
      that part and keeps its entries; the rest of the list stays. */
  ghost function SwapInPrefix(h: seq<int>, rest: seq<int>, t: seq<int>, i: int, j: int): (r: seq<int>)
    requires 0 <= i < |h| && 0 <= j < |h|
    requires t == (h + rest)[i := (h + rest)[j]][j := (h + rest)[i]]
    ensures r == h[i := h[j]][j := h[i]] && t == r + rest
    ensures multiset(r) == multiset(h)
  {
    var r := h[i := h[j]][j := h[i]];
    assert t == r + rest;
    r
  }

  /** A list made of a grown heap part `h` and the untouched rest of the old
      list `d0` has the heap part in its first `n + 1` entries. */
  lemma Grown(d: seq<int>, h: seq<int>, rest: seq<int>, d0: seq<int>, n: int, item: int)
    requires 0 <= n <= |d0| && rest == d0[n..] && d == h + rest && |h| == n + 1
    requires MinHeap(h) && multiset(h) == multiset(d0[..n]) + multiset{item}
    ensures d[..n + 1] == h && d[n + 1..] == d0[n..]
    ensures n == |d0| ==> MinHeap(d) && multiset(d) == multiset(d0) + multiset{item}
  {
    assert d[..n + 1] == h;
    if n == |d0| {
      assert d == h && d0[..n] == d0;
    }
  }

  /** A hole below its smaller child closes. */
  lemma Settled(s: seq<int>, lo: int, hole: int, child: int)
    requires 0 <= lo <= hole
    requires child == 2 * hole + 1 || child == 2 * hole + 2
    requires child < |s|
    requires OrderedBut(s, lo, hole) && Covered(s, lo, hole)
    requires child == 2 * hole + 1 && 2 * hole + 2 < |s| ==> s[child] <= s[2 * hole + 2]
    requires child == 2 * hole + 2 ==> s[child] <= s[2 * hole + 1]
    requires s[hole] < s[child]
    ensures OrderedFrom(s, lo)
  {
    forall c | 1 <= c < |s| && lo <= HeapSort.Parent(c) && HeapSort.Parent(c) == hole
      ensures s[HeapSort.Parent(c)] <= s[c]
    {
      assert c == 2 * hole + 1 || c == 2 * hole + 2;
    }
  }

  /** A hole without children closes. */
  lemma Bottom(s: seq<int>, lo: int, hole: int)
    requires 0 <= lo <= hole && |s| < 2 * hole + 2
    requires OrderedBut(s, lo, hole)
    ensures OrderedFrom(s, lo)
  {
    forall c | 1 <= c < |s| && lo <= HeapSort.Parent(c)
      ensures HeapSort.Parent(c) != hole
    {
    }
  }

  /** Swapping the hole with its smaller child moves the hole down a level. */
  lemma Sink(s: seq<int>, t: seq<int>, lo: int, hole: int, child: int)
    requires 0 <= lo <= hole
    requires child == 2 * hole + 1 || child == 2 * hole + 2
    requires child < |s|
    requires OrderedBut(s, lo, hole) && Covered(s, lo, hole)
    requires child == 2 * hole + 1 && 2 * hole + 2 < |s| ==> s[child] <= s[2 * hole + 2]
    requires child == 2 * hole + 2 ==> s[child] <= s[2 * hole + 1]
    requires s[child] <= s[hole]
    requires t == s[hole := s[child]][child := s[hole]]
    ensures OrderedBut(t, lo, child) && Covered(t, lo, child)
  {
    assert HeapSort.Parent(child) == hole;
    forall c | 1 <= c < |t| && lo <= HeapSort.Parent(c) && HeapSort.Parent(c) != child
      ensures t[HeapSort.Parent(c)] <= t[c]
    {
      if HeapSort.Parent(c) == hole {
        assert c == 2 * hole + 1 || c == 2 * hole + 2;
      } else if c == hole {
        assert lo < hole;
      }
    }
    forall c | 1 <= c < |t| && HeapSort.Parent(c) == child
      ensures t[HeapSort.Parent(child)] <= t[c]
    {
      assert c != child && c != hole;
    }
  }

  /** Swapping a rising entry with its strictly greater parent moves it up a
      level. */
  lemma Rise(s: seq<int>, t: seq<int>, p: int)
    requires 1 <= p < |s|
    requires OrderedButAbove(s, p) && Bridged(s, p)
    requires s[p] < s[HeapSort.Parent(p)]
    requires t == s[HeapSort.Parent(p) := s[p]][p := s[HeapSort.Parent(p)]]
    ensures OrderedButAbove(t, HeapSort.Parent(p)) && Bridged(t, HeapSort.Parent(p))
  {
    var q := HeapSort.Parent(p);
    forall c | 1 <= c < |t| && c != q
      ensures t[HeapSort.Parent(c)] <= t[c]
    {
      if c == p {
      } else if HeapSort.Parent(c) == p {
      } else if HeapSort.Parent(c) == q {
      }
    }
  }

  /** A rising entry that meets a parent not greater than it (or the root)
      completes the heap. */
  lemma Risen(s: seq<int>, p: int)
    requires 0 <= p < |s|
    requires OrderedButAbove(s, p)
    requires 1 <= p ==> s[Div(p - 1, 2)] <= s[p]
    ensures MinHeap(s)
  {
    if 1 <= p {
      assert Div(p - 1, 2) == HeapSort.Parent(p);
    }
  }

  /** Dropping the last entry of a heap and writing it over the root leaves
      every parent below the root in order. */
  lemma Shrunk(s: seq<int>, t: seq<int>)
    requires MinHeap(s) && 2 <= |s| && |t| == |s| - 1
    requires t == s[..|s| - 1][0 := s[|s| - 1]]
    ensures OrderedFrom(t, 1)
    ensures multiset(t) == multiset(s) - multiset{s[0]}
  {
    var u := s[..|s| - 1];
    assert s == [s[0]] + s[1..|s| - 1] + [s[|s| - 1]];
    assert t == [s[|s| - 1]] + s[1..|s| - 1];
  }

  /** With the root never moved, `[3, 1, 2]` stays out of heap order whatever
      the rest of the as-written `heapify` does. */
  lemma RootStuck(t: seq<int>)
    requires |t| == 3 && t[0] == 3 && multiset(t) == multiset([3, 1, 2])
    ensures !MinHeap(t)
  {
    assert 1 in multiset(t);
    var k :| 0 <= k < 3 && t[k] == 1;
    assert HeapSort.Parent(k) == 0;
  }

  /** The as-written `Heap(ArrayList)` leaves `[3, 1, 2]` out of heap order. */
  method FromListUnordered() returns (h: Heap)
    ensures !MinHeap(h.data)
  {
    h := new Heap.FromListAsWritten([3, 1, 2]);
    RootStuck(h.data);
  }

  /** The as-written `Heap(ArrayList)` reports a non-empty list as an empty
      heap: `top()` throws. */
  method FromListLooksEmpty() returns (r: Outcome<int>)
    ensures r == Thrown(IllegalState)
  {
    var h := new Heap.FromListAsWritten([5]);
    r := h.Top();
  }

  /** After the as-written `Heap(ArrayList)`, `add` puts the new entry in
      front of the adopted ones, counts only it, and `remove` still sees an
      empty heap. */
  method FromListThenAdd() returns (h: Heap, r: Outcome<int>)
    ensures h.data == [7, 5] && h.free == 1
    ensures r == Thrown(IllegalState)
  {
    h := new Heap.FromListAsWritten([5]);
    r := h.RemoveAsWritten();
    h.Add(7);
    assert h.data[1..] == [5] && multiset(h.data[..1]) == multiset{7};
    assert h.data[0] in multiset(h.data[..1]);
  }

  /** The as-written `remove()` throws on a heap holding one entry. */
  method LastRemoveThrows() returns (r: Outcome<int>)
    ensures r == Thrown(IndexOutOfBounds)
  {
    var h := new Heap(1);
    h.Add(7);
    r := h.RemoveAsWritten();
  }
}
