/** The treap of treaps/Treap.java: a binary search tree on integer keys that is
    also meant to be a max-heap on a per-node integer priority, with a registry
    of the priorities in use.

    Nodes are heap objects whose `left`/`right` links the rotations rewrite in
    place; a node's key (`data`) and `priority` never change after construction.
    The ghost value `shape` of a treap is a `Tree` of node references that the
    pointer structure mirrors (`Mirrors`), so that order, heap and uniqueness
    invariants can be stated on values. */
module Treap {
  import opened Java

  /** The size of the priority range drawn by `add(key)` (Treap.java:61). */
  const BOUND: int := 100

  class Node {
    const data: int
    const priority: int
    var left: Node?
    var right: Node?

    constructor (data: int, priority: int)
      ensures this.data == data && this.priority == priority
      ensures left == null && right == null
    {
      this.data := data;
      this.priority := priority;
      left := null;
      right := null;
    }

    /** Promotes the left child above this node and returns it; throws
        IllegalStateException when there is no left child. Only the two links
        named below change. */
    method RotateRight() returns (r: Outcome<Node>)
      requires left != this
      modifies this, left
      ensures old(left) == null ==> r == Thrown(IllegalState) && left == null && right == old(right)
      ensures old(left) != null ==>
        && r == Ok(old(left))
        && left == old(left.right) && right == old(right)
        && old(left).right == this && old(left).left == old(left.left)
    {
      if left == null {
        return Thrown(IllegalState);
      }
      var root := left;
      this.left := root.right;
      root.right := this;
      return Ok(root);
    }

    /** The mirror image of RotateRight. */
    method RotateLeft() returns (r: Outcome<Node>)
      requires right != this
      modifies this, right
      ensures old(right) == null ==> r == Thrown(IllegalState) && right == null && left == old(left)
      ensures old(right) != null ==>
        && r == Ok(old(right))
        && right == old(right.left) && left == old(left)
        && old(right).left == this && old(right).right == old(right.right)
    {
      if right == null {
        return Thrown(IllegalState);
      }
      var root := right;
      this.right := root.left;
      root.left := this;
      return Ok(root);
    }
  }

  // ---------------------------------------------------------------------------
  // Shapes: the value a pointer structure stands for

  /** The shape of a (sub)treap: which node sits where. */
  datatype Tree = Leaf | Br(node: Node, left: Tree, right: Tree)

  ghost function NodeSet(t: Tree): set<Node>
  {
    match t
    case Leaf => {}
    case Br(n, l, r) => {n} + NodeSet(l) + NodeSet(r)
  }

  function Keys(t: Tree): set<int>
  {
    match t
    case Leaf => {}
    case Br(n, l, r) => {n.data} + Keys(l) + Keys(r)
  }

  function Prios(t: Tree): set<int>
  {
    match t
    case Leaf => {}
    case Br(n, l, r) => {n.priority} + Prios(l) + Prios(r)
  }

  /** The keys read by an in-order traversal. */
  function InOrder(t: Tree): seq<int>
  {
    match t
    case Leaf => []
    case Br(n, l, r) => InOrder(l) + [n.data] + InOrder(r)
  }

  /** No node occurs twice: the links form a tree, not a DAG or a cycle. */
  ghost predicate Distinct(t: Tree)
  {
    match t
    case Leaf => true
    case Br(n, l, r) =>
      && n !in NodeSet(l) + NodeSet(r) && NodeSet(l) !! NodeSet(r)
      && Distinct(l) && Distinct(r)
  }

  /** Binary-search-tree order: smaller keys to the left, larger to the right. */
  predicate Bst(t: Tree)
  {
    match t
    case Leaf => true
    case Br(n, l, r) =>
      && (forall k :: k in Keys(l) ==> k < n.data)
      && (forall k :: k in Keys(r) ==> n.data < k)
      && Bst(l) && Bst(r)
  }

  /** No two nodes share a priority. */
  predicate UniquePrios(t: Tree)
  {
    match t
    case Leaf => true
    case Br(n, l, r) =>
      && n.priority !in Prios(l) + Prios(r) && Prios(l) !! Prios(r)
      && UniquePrios(l) && UniquePrios(r)
  }

  /** The root of `t`, if any, has a priority below `p`. */
  predicate Above(p: int, t: Tree)
  {
    t.Leaf? || t.node.priority < p
  }

  /** Max-heap order: every node's priority exceeds its children's. */
  predicate HeapOrdered(t: Tree)
  {
    match t
    case Leaf => true
    case Br(n, l, r) =>
      Above(n.priority, l) && Above(n.priority, r) && HeapOrdered(l) && HeapOrdered(r)
  }

  /** The pointer structure rooted at `p` has shape `t`. */
  ghost predicate Mirrors(p: Node?, t: Tree)
    reads NodeSet(t)
  {
    match t
    case Leaf => p == null
    case Br(n, l, r) => p == n && Mirrors(n.left, l) && Mirrors(n.right, r)
  }

  lemma MirrorsRoot(p: Node?, t: Tree)
    requires Mirrors(p, t)
    ensures p == null <==> t.Leaf?
    ensures p != null ==> p == t.node && p in NodeSet(t)
  {
  }

  // ---------------------------------------------------------------------------
  // Rotations on shapes

  function RotR(t: Tree): (u: Tree)
    requires t.Br? && t.left.Br?
  {
    Br(t.left.node, t.left.left, Br(t.node, t.left.right, t.right))
  }

  function RotL(t: Tree): (u: Tree)
    requires t.Br? && t.right.Br?
  {
    Br(t.right.node, Br(t.node, t.left, t.right.left), t.right.right)
  }

  /** A right rotation keeps the in-order key sequence, the nodes, the keys and
      the priorities. */
  lemma RotRPreserves(t: Tree)
    requires t.Br? && t.left.Br?
    ensures InOrder(RotR(t)) == InOrder(t)
    ensures NodeSet(RotR(t)) == NodeSet(t) && Keys(RotR(t)) == Keys(t) && Prios(RotR(t)) == Prios(t)
  {
    var Br(x, Br(l, a, b), c) := t;
    calc {
      InOrder(RotR(t));
      InOrder(a) + [l.data] + (InOrder(b) + [x.data] + InOrder(c));
      { SeqAssoc5(InOrder(a), [l.data], InOrder(b), [x.data], InOrder(c)); }
      InOrder(a) + [l.data] + InOrder(b) + [x.data] + InOrder(c);
      InOrder(t);
    }
  }

  /** ... and with them BST order, */
  lemma RotRBst(t: Tree)
    requires t.Br? && t.left.Br? && Bst(t)
    ensures Bst(RotR(t))
  {
    var Br(x, Br(l, a, b), c) := t;
    assert Bst(Br(l, a, b));
    assert l.data in Keys(Br(l, a, b));
    forall k | k in Keys(Br(x, b, c)) ensures l.data < k {
      if k in Keys(c) {
        assert x.data < k;
      } else if k in Keys(b) {
        assert l.data < k;
      }
    }
    forall k | k in Keys(b) ensures k < x.data {
      assert k in Keys(Br(l, a, b));
    }
  }

  /** node distinctness */
  lemma RotRDistinct(t: Tree)
    requires t.Br? && t.left.Br? && Distinct(t)
    ensures Distinct(RotR(t))
  {
    var Br(x, Br(l, a, b), c) := t;
    var na, nb, nc := NodeSet(a), NodeSet(b), NodeSet(c);
    assert NodeSet(Br(l, a, b)) == {l} + na + nb;
    assert Distinct(Br(l, a, b));
    assert x !in na + nb + nc && l !in na + nb && l !in nc;
    assert Distinct(Br(x, b, c));
    assert NodeSet(Br(x, b, c)) == {x} + nb + nc;
  }

  /** and priority uniqueness. */
  lemma RotRUnique(t: Tree)
    requires t.Br? && t.left.Br? && UniquePrios(t)
    ensures UniquePrios(RotR(t))
  {
    var Br(x, Br(l, a, b), c) := t;
    var pa, pb, pc := Prios(a), Prios(b), Prios(c);
    assert Prios(Br(l, a, b)) == {l.priority} + pa + pb;
    assert UniquePrios(Br(l, a, b));
    assert x.priority !in pa + pb + pc && l.priority !in pa + pb && l.priority !in pc && l.priority != x.priority;
    assert UniquePrios(Br(x, b, c));
    assert Prios(Br(x, b, c)) == {x.priority} + pb + pc;
  }

  /** The mirror image of RotRPreserves. */
  lemma RotLPreserves(t: Tree)
    requires t.Br? && t.right.Br?
    ensures InOrder(RotL(t)) == InOrder(t)
    ensures NodeSet(RotL(t)) == NodeSet(t) && Keys(RotL(t)) == Keys(t) && Prios(RotL(t)) == Prios(t)
  {
    var Br(x, a, Br(r, b, c)) := t;
    calc {
      InOrder(t);
      InOrder(a) + [x.data] + (InOrder(b) + [r.data] + InOrder(c));
      { SeqAssoc5(InOrder(a), [x.data], InOrder(b), [r.data], InOrder(c)); }
      InOrder(a) + [x.data] + InOrder(b) + [r.data] + InOrder(c);
      InOrder(RotL(t));
    }
  }

  lemma SeqAssoc5(a: seq<int>, b: seq<int>, c: seq<int>, d: seq<int>, e: seq<int>)
    ensures a + b + (c + d + e) == a + b + c + d + e
  {
  }

  /** The mirror image of RotRBst. */
  lemma RotLBst(t: Tree)
    requires t.Br? && t.right.Br? && Bst(t)
    ensures Bst(RotL(t))
  {
    var Br(x, a, Br(r, b, c)) := t;
    assert Bst(Br(r, b, c));
    assert r.data in Keys(Br(r, b, c));
    forall k | k in Keys(Br(x, a, b)) ensures k < r.data {
      if k in Keys(a) {
        assert k < x.data;
      } else if k in Keys(b) {
        assert k < r.data;
      }
    }
    forall k | k in Keys(b) ensures x.data < k {
      assert k in Keys(Br(r, b, c));
    }
  }

  /** The mirror image of RotRDistinct. */
  lemma RotLDistinct(t: Tree)
    requires t.Br? && t.right.Br? && Distinct(t)
    ensures Distinct(RotL(t))
  {
    var Br(x, a, Br(r, b, c)) := t;
    var na, nb, nc := NodeSet(a), NodeSet(b), NodeSet(c);
    assert NodeSet(Br(r, b, c)) == {r} + nb + nc;
    assert Distinct(Br(r, b, c));
    assert x !in na + nb + nc && r !in nb + nc && r !in na;
    assert Distinct(Br(x, a, b));
    assert NodeSet(Br(x, a, b)) == {x} + na + nb;
  }

  /** The mirror image of RotRUnique. */
  lemma RotLUnique(t: Tree)
    requires t.Br? && t.right.Br? && UniquePrios(t)
    ensures UniquePrios(RotL(t))
  {
    var Br(x, a, Br(r, b, c)) := t;
    var pa, pb, pc := Prios(a), Prios(b), Prios(c);
    assert Prios(Br(r, b, c)) == {r.priority} + pb + pc;
    assert UniquePrios(Br(r, b, c));
    assert x.priority !in pa + pb + pc && r.priority !in pb + pc && r.priority !in pa && r.priority != x.priority;
    assert UniquePrios(Br(x, a, b));
    assert Prios(Br(x, a, b)) == {x.priority} + pa + pb;
  }

  /** BST order is exactly a strictly increasing in-order traversal. */
  lemma BstIffSorted(t: Tree)
    ensures Bst(t) <==> StrictlyIncreasing(InOrder(t))
  {
    if Bst(t) {
      BstSorted(t);
    }
    if StrictlyIncreasing(InOrder(t)) {
      SortedBst(t);
    }
  }

  /** The in-order traversal lists exactly the keys. */
  lemma {:induction false} InOrderKeys(t: Tree)
    ensures forall k :: k in InOrder(t) <==> k in Keys(t)
  {
    match t
    case Leaf =>
    case Br(n, l, r) =>
      InOrderKeys(l);
      InOrderKeys(r);
      assert InOrder(t) == InOrder(l) + [n.data] + InOrder(r);
  }

  lemma {:induction false} BstSorted(t: Tree)
    requires Bst(t)
    ensures StrictlyIncreasing(InOrder(t))
  {
    match t
    case Leaf =>
    case Br(n, l, r) =>
      BstSorted(l);
      BstSorted(r);
      InOrderKeys(l);
      InOrderKeys(r);
      var s, m := InOrder(t), |InOrder(l)|;
      assert s == InOrder(l) + [n.data] + InOrder(r);
      forall i, j | 0 <= i < j < |s| ensures s[i] < s[j] {
        assert s[m] == n.data;
        if j < m {
          assert s[i] == InOrder(l)[i] && s[j] == InOrder(l)[j];
        } else if m < i {
          assert s[i] == InOrder(r)[i - m - 1] && s[j] == InOrder(r)[j - m - 1];
        } else {
          assert i < m ==> s[i] == InOrder(l)[i] && s[i] in Keys(l);
          assert m < j ==> s[j] == InOrder(r)[j - m - 1] && s[j] in Keys(r);
        }
      }
  }

  lemma {:induction false} SortedBst(t: Tree)
    requires StrictlyIncreasing(InOrder(t))
    ensures Bst(t)
  {
    match t
    case Leaf =>
    case Br(n, l, r) =>
      var s, m := InOrder(t), |InOrder(l)|;
      assert s == InOrder(l) + [n.data] + InOrder(r);
      assert StrictlyIncreasing(InOrder(l)) by {
        forall i, j | 0 <= i < j < m ensures InOrder(l)[i] < InOrder(l)[j] {
          assert s[i] == InOrder(l)[i] && s[j] == InOrder(l)[j];
        }
      }
      assert StrictlyIncreasing(InOrder(r)) by {
        forall i, j | 0 <= i < j < |InOrder(r)| ensures InOrder(r)[i] < InOrder(r)[j] {
          assert s[m + 1 + i] == InOrder(r)[i] && s[m + 1 + j] == InOrder(r)[j];
        }
      }
      SortedBst(l);
      SortedBst(r);
      InOrderKeys(l);
      InOrderKeys(r);
      forall k | k in Keys(l) ensures k < n.data {
        var i :| 0 <= i < m && InOrder(l)[i] == k;
        assert s[i] == k && s[m] == n.data;
      }
      forall k | k in Keys(r) ensures n.data < k {
        var i :| 0 <= i < |InOrder(r)| && InOrder(r)[i] == k;
        assert s[m + 1 + i] == k && s[m] == n.data;
      }
  }

  predicate StrictlyIncreasing(s: seq<int>)
  {
    forall i, j :: 0 <= i < j < |s| ==> s[i] < s[j]
  }

  // ---------------------------------------------------------------------------
  // Paths: a zipper over shapes, the ghost counterpart of the recorded path

  /** One step of a descent: the focus is `n`'s left (WentLeft) or right
      (WentRight) subtree, and `sib` is the other one. */
  datatype Frame = WentLeft(n: Node, sib: Tree) | WentRight(n: Node, sib: Tree)

  function Attach(f: Frame, t: Tree): Tree
  {
    match f
    case WentLeft(n, s) => Br(n, t, s)
    case WentRight(n, s) => Br(n, s, t)
  }

  /** Rebuilds the whole shape from the frames (innermost first) and the focus. */
  function Plug(fs: seq<Frame>, t: Tree): Tree
    decreases |fs|
  {
    if fs == [] then t else Plug(fs[1..], Attach(fs[0], t))
  }

  /** The node at the top of the rebuilt shape, given the focus's root `c`. */
  function Top(fs: seq<Frame>, c: Node?): Node?
    decreases |fs|
  {
    if fs == [] then c else Top(fs[1..], fs[0].n)
  }

  /** The nodes of the frames, innermost first: the recorded descent path. */
  function FrameNodes(fs: seq<Frame>): seq<Node>
    decreases |fs|
  {
    if fs == [] then [] else [fs[0].n] + FrameNodes(fs[1..])
  }

  ghost function ZipNodes(fs: seq<Frame>): set<Node>
    decreases |fs|
  {
    if fs == [] then {} else {fs[0].n} + NodeSet(fs[0].sib) + ZipNodes(fs[1..])
  }

  function ZipKeys(fs: seq<Frame>): set<int>
    decreases |fs|
  {
    if fs == [] then {} else {fs[0].n.data} + Keys(fs[0].sib) + ZipKeys(fs[1..])
  }

  function ZipPrios(fs: seq<Frame>): set<int>
    decreases |fs|
  {
    if fs == [] then {} else {fs[0].n.priority} + Prios(fs[0].sib) + ZipPrios(fs[1..])
  }

  /** Every key of `e` belongs where the descent went: left of the WentLeft
      nodes and right of the WentRight nodes. */
  predicate FitsAll(fs: seq<Frame>, e: set<int>)
    decreases |fs|
  {
    fs == [] ||
    (&& (match fs[0]
         case WentLeft(n, _) => forall k :: k in e ==> k < n.data
         case WentRight(n, _) => forall k :: k in e ==> n.data < k)
     && FitsAll(fs[1..], e))
  }

  lemma {:induction false} FitsEmpty(fs: seq<Frame>)
    ensures FitsAll(fs, {})
    decreases |fs|
  {
    if fs != [] {
      FitsEmpty(fs[1..]);
    }
  }

  /** Heap order of the frames: each frame node outranks its other subtree and
      is outranked by the next frame node up. */
  predicate ZipHeap(fs: seq<Frame>)
    decreases |fs|
  {
    fs == [] ||
    (&& Above(fs[0].n.priority, fs[0].sib) && HeapOrdered(fs[0].sib)
     && (|fs| > 1 ==> fs[0].n.priority < fs[1].n.priority)
     && ZipHeap(fs[1..]))
  }

  /** Each frame node links to the node below it on the path (`c` for the
      innermost), and its other link mirrors the frame's sibling. */
  ghost predicate ZipMirrors(fs: seq<Frame>, c: Node?)
    reads ZipNodes(fs)
    decreases |fs|
  {
    fs == [] ||
    (&& (match fs[0]
         case WentLeft(n, s) => n.left == c && Mirrors(n.right, s)
         case WentRight(n, s) => n.right == c && Mirrors(n.left, s))
     && ZipMirrors(fs[1..], fs[0].n))
  }

  lemma {:induction false} PlugSets(fs: seq<Frame>, t: Tree)
    ensures NodeSet(Plug(fs, t)) == NodeSet(t) + ZipNodes(fs)
    ensures Keys(Plug(fs, t)) == Keys(t) + ZipKeys(fs)
    ensures Prios(Plug(fs, t)) == Prios(t) + ZipPrios(fs)
    decreases |fs|
  {
    if fs != [] {
      PlugSets(fs[1..], Attach(fs[0], t));
    }
  }

  /** Whatever holds of the whole shape holds of the focus, and the focus's nodes
      and priorities are disjoint from the frames'. */
  lemma {:induction false} PlugParts(fs: seq<Frame>, t: Tree)
    ensures Distinct(Plug(fs, t)) ==> Distinct(t) && NodeSet(t) !! ZipNodes(fs)
    ensures UniquePrios(Plug(fs, t)) ==> UniquePrios(t) && Prios(t) !! ZipPrios(fs)
    ensures Bst(Plug(fs, t)) ==> Bst(t)
    decreases |fs|
  {
    if fs != [] {
      PlugParts(fs[1..], Attach(fs[0], t));
    }
  }

  /** Replacing the focus by a BST whose extra keys fit the path keeps BST order. */
  lemma {:induction false} PlugBst(fs: seq<Frame>, t: Tree, u: Tree, e: set<int>)
    requires Bst(Plug(fs, t)) && Bst(u) && Keys(u) <= Keys(t) + e && FitsAll(fs, e)
    ensures Bst(Plug(fs, u))
    decreases |fs|
  {
    if fs != [] {
      PlugParts(fs[1..], Attach(fs[0], t));
      PlugBst(fs[1..], Attach(fs[0], t), Attach(fs[0], u), e);
    }
  }

  /** Replacing the focus by a distinct shape whose extra nodes are new to the
      path keeps the whole shape distinct. */
  lemma {:induction false} PlugDistinct(fs: seq<Frame>, t: Tree, u: Tree, x: set<Node>)
    requires Distinct(Plug(fs, t)) && Distinct(u) && NodeSet(u) <= NodeSet(t) + x && x !! ZipNodes(fs)
    ensures Distinct(Plug(fs, u))
    decreases |fs|
  {
    if fs != [] {
      PlugParts(fs[1..], Attach(fs[0], t));
      PlugDistinct(fs[1..], Attach(fs[0], t), Attach(fs[0], u), x);
    }
  }

  /** The same for priority uniqueness. */
  lemma {:induction false} PlugUnique(fs: seq<Frame>, t: Tree, u: Tree, q: set<int>)
    requires UniquePrios(Plug(fs, t)) && UniquePrios(u) && Prios(u) <= Prios(t) + q && q !! ZipPrios(fs)
    ensures UniquePrios(Plug(fs, u))
    decreases |fs|
  {
    if fs != [] {
      PlugParts(fs[1..], Attach(fs[0], t));
      PlugUnique(fs[1..], Attach(fs[0], t), Attach(fs[0], u), q);
    }
  }

  /** A heap-ordered shape splits into heap-ordered frames and focus. */
  lemma {:induction false} HeapZip(fs: seq<Frame>, t: Tree)
    requires HeapOrdered(Plug(fs, t))
    ensures ZipHeap(fs) && HeapOrdered(t)
    ensures fs != [] ==> Above(fs[0].n.priority, t)
    decreases |fs|
  {
    if fs != [] {
      HeapZip(fs[1..], Attach(fs[0], t));
    }
  }

  /** Heap-ordered frames around a heap-ordered focus that their innermost node
      outranks rebuild a heap-ordered shape. */
  lemma {:induction false} PlugHeap(fs: seq<Frame>, t: Tree)
    requires ZipHeap(fs) && HeapOrdered(t)
    requires fs != [] ==> Above(fs[0].n.priority, t)
    ensures HeapOrdered(Plug(fs, t))
    decreases |fs|
  {
    if fs != [] {
      PlugHeap(fs[1..], Attach(fs[0], t));
    }
  }

  /** A non-empty path rebuilds a non-empty shape with a node on top. */
  lemma {:induction false} PlugTop(fs: seq<Frame>, t: Tree, c: Node?)
    requires fs != []
    ensures Plug(fs, t).Br? && Top(fs, c) != null
    decreases |fs|
  {
    if |fs| > 1 {
      PlugTop(fs[1..], Attach(fs[0], t), fs[0].n);
    }
  }

  /** Links that agree with the frames, around a focus that is mirrored,
      mirror the rebuilt shape from its top node. */
  lemma {:induction false} ZipToMirrors(fs: seq<Frame>, c: Node?, t: Tree)
    requires ZipMirrors(fs, c) && Mirrors(c, t)
    ensures Mirrors(Top(fs, c), Plug(fs, t))
    decreases |fs|
  {
    if fs != [] {
      ZipToMirrors(fs[1..], fs[0].n, Attach(fs[0], t));
    }
  }

  /** One rotation of a reheap: the focus's root is lifted above the frame
      node `f.n`, which takes the focus's inner subtree as its own. */
  function Lift(f: Frame, t: Tree): Tree
    requires t.Br?
  {
    match f
    case WentLeft(n, s) => Br(t.node, t.left, Br(n, t.right, s))
    case WentRight(n, s) => Br(t.node, Br(n, s, t.left), t.right)
  }

  /** Lifting is a rotation at the frame node, so the whole shape keeps its
      nodes, keys and priorities, its BST order, distinctness and uniqueness. */
  lemma LiftKeeps(fs: seq<Frame>, t: Tree)
    requires fs != [] && t.Br?
    requires Distinct(Plug(fs, t)) && Bst(Plug(fs, t)) && UniquePrios(Plug(fs, t))
    ensures var u := Plug(fs[1..], Lift(fs[0], t));
      && NodeSet(u) == NodeSet(Plug(fs, t)) && Keys(u) == Keys(Plug(fs, t)) && Prios(u) == Prios(Plug(fs, t))
      && Distinct(u) && Bst(u) && UniquePrios(u)
  {
    var a := Attach(fs[0], t);
    assert Plug(fs, t) == Plug(fs[1..], a);
    PlugParts(fs[1..], a);
    PlugSets(fs[1..], a);
    PlugSets(fs[1..], Lift(fs[0], t));
    if fs[0].WentLeft? {
      assert Lift(fs[0], t) == RotR(a);
      RotRPreserves(a);
      RotRBst(a);
      RotRDistinct(a);
      RotRUnique(a);
    } else {
      assert Lift(fs[0], t) == RotL(a);
      RotLPreserves(a);
      RotLBst(a);
      RotLDistinct(a);
      RotLUnique(a);
    }
    FitsEmpty(fs[1..]);
    PlugBst(fs[1..], a, Lift(fs[0], t), {});
    PlugDistinct(fs[1..], a, Lift(fs[0], t), {});
    PlugUnique(fs[1..], a, Lift(fs[0], t), {});
  }

  /** Lifting a focus that outranks its frame node keeps the reheap invariant:
      the new focus is heap-ordered and the next frame node outranks its
      children. */
  lemma LiftHeap(fs: seq<Frame>, t: Tree)
    requires fs != [] && t.Br? && HeapOrdered(t) && ZipHeap(fs)
    requires Above(fs[0].n.priority, t.left) && Above(fs[0].n.priority, t.right)
    requires fs[0].n.priority < t.node.priority
    ensures HeapOrdered(Lift(fs[0], t)) && ZipHeap(fs[1..])
    ensures |fs| > 1 ==>
      Above(fs[1].n.priority, Lift(fs[0], t).left) && Above(fs[1].n.priority, Lift(fs[0], t).right)
  {
  }

  /** The value-level treap invariant: a distinct BST, heap-ordered by
      unique priorities, all of which are in the registry `reg`. */
  ghost predicate Wf(t: Tree, reg: set<int>)
  {
    Distinct(t) && Bst(t) && HeapOrdered(t) && UniquePrios(t) && Prios(t) <= reg
  }

  /** The value part of the reheap invariant for the frames `fs` around the
      focus `t`: the whole shape is a distinct BST with unique priorities from
      `reg`, the focus and the frames are heap-ordered, and the innermost frame
      node outranks the focus's children. */
  ghost predicate ZipWf(fs: seq<Frame>, t: Tree, reg: set<int>)
  {
    && t.Br?
    && Distinct(Plug(fs, t)) && Bst(Plug(fs, t)) && UniquePrios(Plug(fs, t)) && Prios(Plug(fs, t)) <= reg
    && HeapOrdered(t) && ZipHeap(fs)
    && (fs != [] ==> Above(fs[0].n.priority, t.left) && Above(fs[0].n.priority, t.right))
  }

  /** Hanging a new node with an unused priority and a fresh identity where the
      descent for its key fell off the tree establishes the reheap invariant
      for the new leaf. */
  lemma LeafFits(fs: seq<Frame>, leaf: Node, reg: set<int>)
    requires fs != [] && Wf(Plug(fs, Leaf), reg) && FitsAll(fs, {leaf.data})
    requires leaf !in NodeSet(Plug(fs, Leaf)) && leaf.priority !in reg
    ensures ZipWf(fs, Br(leaf, Leaf, Leaf), reg + {leaf.priority})
  {
    var t := Br(leaf, Leaf, Leaf);
    var u := Plug(fs, t);
    LeafSets(fs, leaf);
    assert ZipHeap(fs) by {
      HeapZip(fs, Leaf);
    }
    assert Bst(u) by {
      PlugBst(fs, Leaf, t, {leaf.data});
    }
    assert Distinct(u) by {
      PlugDistinct(fs, Leaf, t, {leaf});
    }
    assert UniquePrios(u) by {
      PlugUnique(fs, Leaf, t, {leaf.priority});
    }
  }

  /** The new leaf adds one node, key and priority to the shape. */
  lemma LeafSets(fs: seq<Frame>, leaf: Node)
    ensures var u, s := Plug(fs, Br(leaf, Leaf, Leaf)), Plug(fs, Leaf);
      && NodeSet(u) == NodeSet(s) + {leaf}
      && Keys(u) == Keys(s) + {leaf.data}
      && Prios(u) == Prios(s) + {leaf.priority}
    ensures ZipNodes(fs) == NodeSet(Plug(fs, Leaf)) && ZipPrios(fs) == Prios(Plug(fs, Leaf))
  {
    PlugSets(fs, Leaf);
    PlugSets(fs, Br(leaf, Leaf, Leaf));
  }

  /** One reheap step: when the focus outranks its frame node, lifting it
      keeps the reheap invariant one frame further up, and keeps the nodes,
      keys and priorities of the whole shape. */
  lemma LiftStep(fs: seq<Frame>, t: Tree, reg: set<int>)
    requires fs != [] && ZipWf(fs, t, reg) && fs[0].n.priority < t.node.priority
    ensures ZipWf(fs[1..], Lift(fs[0], t), reg)
    ensures var u := Plug(fs[1..], Lift(fs[0], t));
      NodeSet(u) == NodeSet(Plug(fs, t)) && Keys(u) == Keys(Plug(fs, t)) && Prios(u) == Prios(Plug(fs, t))
  {
    LiftKeeps(fs, t);
    LiftHeap(fs, t);
  }

  /** Lifting moves the frame node into the focus and nothing else. */
  lemma LiftNodes(fs: seq<Frame>, t: Tree)
    requires fs != [] && t.Br?
    ensures ZipNodes(fs[1..]) + NodeSet(Lift(fs[0], t)) == ZipNodes(fs) + NodeSet(t)
  {
    assert ZipNodes(fs) == {fs[0].n} + NodeSet(fs[0].sib) + ZipNodes(fs[1..]);
  }

  /** The reheap stops when the focus is at the top or does not outrank its
      frame node; priorities being unique, it is then outranked, and the
      whole shape is a treap. */
  lemma ZipDone(fs: seq<Frame>, t: Tree, reg: set<int>)
    requires ZipWf(fs, t, reg) && (fs != [] ==> t.node.priority <= fs[0].n.priority)
    ensures Wf(Plug(fs, t), reg)
  {
    if fs != [] {
      assert fs[0].n.priority != t.node.priority by {
        PlugParts(fs[1..], Attach(fs[0], t));
      }
    }
    PlugHeap(fs, t);
  }

  /** The identities a reheap step relies on: the focus, the innermost frame
      node with its other subtree, and the frames further up are pairwise
      apart. */
  lemma ZipApart(fs: seq<Frame>, t: Tree)
    requires fs != [] && t.Br? && Distinct(Plug(fs, t))
    ensures Distinct(t) && NodeSet(t) !! ZipNodes(fs)
    ensures fs[0].n !in NodeSet(fs[0].sib) && NodeSet(t) !! NodeSet(fs[0].sib)
    ensures fs[0].n !in ZipNodes(fs[1..]) && NodeSet(fs[0].sib) !! ZipNodes(fs[1..])
    ensures |fs| > 1 ==> fs[1].n !in NodeSet(fs[1].sib) && fs[1].n !in ZipNodes(fs[2..])
  {
    PlugParts(fs, t);
    assert Plug(fs, t) == Plug(fs[1..], Attach(fs[0], t));
    PlugParts(fs[1..], Attach(fs[0], t));
    if |fs| > 1 {
      assert Plug(fs[1..], Attach(fs[0], t)) == Plug(fs[2..], Attach(fs[1], Attach(fs[0], t)));
      assert fs[1..][1..] == fs[2..];
      PlugParts(fs[2..], Attach(fs[1], Attach(fs[0], t)));
    }
  }

  /** The pointer structure around a reheap step: from `root`, the frames
      `fs` lead down to the focus's node, and below it the focus is mirrored. */
  ghost predicate Linked(root: Node?, fs: seq<Frame>, focus: Tree)
    reads ZipNodes(fs), NodeSet(focus)
  {
    && focus.Br?
    && root == Top(fs, focus.node) && ZipMirrors(fs, focus.node) && Mirrors(focus.node, focus)
  }

  // ---------------------------------------------------------------------------
  // The treap

  class Treap {
    var root: Node?
    /** The registry of priorities in use (a HashSet in the source). */
    var priorities: set<int>
    ghost var shape: Tree
    ghost var Nodes: set<Node>

    /** What the code maintains: a distinct BST, heap-ordered by unique
        priorities, all of which are registered. (The two throwing paths of
        `add` leave an extra registered priority behind, so the registry may
        hold more than the live priorities.) */
    ghost predicate Valid()
      reads this, Nodes
    {
      && Nodes == NodeSet(shape)
      && Mirrors(root, shape)
      && Wf(shape, priorities)
    }

    constructor ()
      ensures Valid() && root == null && shape == Leaf && priorities == {}
    {
      root := null;
      priorities := {};
      shape := Leaf;
      Nodes := {};
    }

    /** The seeded constructor: the seed only feeds the random generator,
        which is not part of this model. */
    constructor WithSeed(seed: int)
      ensures Valid() && root == null && shape == Leaf && priorities == {}
    {
      root := null;
      priorities := {};
      shape := Leaf;
      Nodes := {};
    }

    /** Binary search from the root: true exactly when some node holds `key`. */
    method Find(key: int) returns (found: bool)
      requires Valid()
      ensures found <==> key in Keys(shape)
    {
      var current := root;
      ghost var t := shape;
      while current != null
        invariant Mirrors(current, t) && Bst(t)
        invariant NodeSet(t) <= Nodes
        invariant key in Keys(shape) <==> key in Keys(t)
        decreases t
      {
        MirrorsRoot(current, t);
        if current.data < key {
          current := current.right;
          t := t.right;
        } else if current.data > key {
          current := current.left;
          t := t.left;
        } else {
          return true;
        }
      }
      return false;
    }

    /** The descent of add(key, priority): from the root toward `key`,
        recording the visited nodes innermost first, until it meets `key` or
        falls off the tree. When it falls off, the recorded path is exactly
        where a node with `key` belongs. */
    method Descend(key: int) returns (path: seq<Node>, hit: bool, ghost fs: seq<Frame>)
      requires Valid()
      ensures hit <==> key in Keys(shape)
      ensures !hit ==>
        && path == FrameNodes(fs) && shape == Plug(fs, Leaf) && FitsAll(fs, {key})
        && root == Top(fs, null) && ZipMirrors(fs, null)
    {
      path := [];
      var current := root;
      fs := [];
      ghost var focus := shape;
      while current != null
        invariant path == FrameNodes(fs)
        invariant Plug(fs, focus) == shape
        invariant root == Top(fs, current) && ZipMirrors(fs, current) && Mirrors(current, focus)
        invariant FitsAll(fs, {key})
        invariant key in Keys(shape) <==> key in Keys(focus)
        invariant Bst(focus)
        decreases focus
      {
        MirrorsRoot(current, focus);
        path := [current] + path;
        if current.data < key {
          fs := [WentRight(current, focus.left)] + fs;
          focus := focus.right;
          current := current.right;
        } else if current.data > key {
          fs := [WentLeft(current, focus.right)] + fs;
          focus := focus.left;
          current := current.left;
        } else {
          return path, true, fs;
        }
      }
      MirrorsRoot(current, focus);
      return path, false, fs;
    }

    /** add(key, priority) as written up to hanging the new leaf
        (Treap.java:111-138): rejects a registered priority, reports a
        present key, and otherwise attaches a new leaf below the last node of
        the descent and registers the priority. On an empty tree the source
        dereferences the missing last node (Treap.java:133) after registering
        the priority, so the key is never added. Heap order is then restored
        by the intended `Reheap`, not by the as-written loop, which fails as
        soon as the new leaf outranks its parent (see `ReheapPassAsWritten`
        and `ReheapAsWrittenTwoNodes`); the true result is therefore the
        intended outcome in that case. The source's documentation names
        IllegalStateException for a registered priority, but the code throws
        IllegalArgumentException (Treap.java:112-113), which the model
        follows. */
    method Add(key: int, priority: int) returns (r: Outcome<bool>)
      requires Valid()
      modifies this, Nodes
      ensures Valid()
      ensures
        if priority in old(priorities) then
          r == Thrown(IllegalArgument) && priorities == old(priorities) && shape == old(shape) && unchanged(old(Nodes))
        else if key in old(Keys(shape)) then
          r == Ok(false) && priorities == old(priorities) && shape == old(shape) && unchanged(old(Nodes))
        else if old(root) == null then
          r == Thrown(NullPointer) && priorities == old(priorities) + {priority} && shape == Leaf
        else
          && r == Ok(true) && priorities == old(priorities) + {priority}
          && Keys(shape) == old(Keys(shape)) + {key}
          && Prios(shape) == old(Prios(shape)) + {priority}
          && old(Nodes) < Nodes && fresh(Nodes - old(Nodes))
    {
      if priority in priorities {
        return Thrown(IllegalArgument);
      }
      var path, hit, fs := Descend(key);
      if hit {
        return Ok(false);
      }
      assert fs != [] ==> root != null by {
        if fs != [] {
          PlugTop(fs, Leaf, null);
        }
      }
      if path == [] {
        // The source builds the node and registers the priority, then reads the
        // key of the missing last node (Treap.java:133): NullPointerException.
        priorities := priorities + {priority};
        return Thrown(NullPointer);
      }
      AttachLeaf(path, key, priority, fs);
      return Ok(true);
    }

    /** add(key, priority) as evidently intended: on an empty treap the new
        node becomes the root. Otherwise as `Add`. */
    method AddIntended(key: int, priority: int) returns (r: Outcome<bool>)
      requires Valid()
      modifies this, Nodes
      ensures Valid()
      ensures
        if priority in old(priorities) then
          r == Thrown(IllegalArgument) && priorities == old(priorities) && shape == old(shape) && unchanged(old(Nodes))
        else if key in old(Keys(shape)) then
          r == Ok(false) && priorities == old(priorities) && shape == old(shape) && unchanged(old(Nodes))
        else
          && r == Ok(true) && priorities == old(priorities) + {priority}
          && Keys(shape) == old(Keys(shape)) + {key}
          && Prios(shape) == old(Prios(shape)) + {priority}
          && old(Nodes) < Nodes && fresh(Nodes - old(Nodes))
    {
      if priority in priorities {
        return Thrown(IllegalArgument);
      }
      var path, hit, fs := Descend(key);
      if hit {
        return Ok(false);
      }
      assert fs != [] ==> root != null by {
        if fs != [] {
          PlugTop(fs, Leaf, null);
        }
      }
      if path == [] {
        Plant(key, priority);
        return Ok(true);
      }
      AttachLeaf(path, key, priority, fs);
      return Ok(true);
    }

    /** The first node of an empty treap: it becomes the root. */
    method Plant(key: int, priority: int)
      requires Valid() && root == null && priority !in priorities
      modifies this
      ensures Valid() && priorities == old(priorities) + {priority}
      ensures Keys(shape) == old(Keys(shape)) + {key} && Prios(shape) == old(Prios(shape)) + {priority}
      ensures old(Nodes) < Nodes && fresh(Nodes - old(Nodes))
    {
      MirrorsRoot(root, shape);
      var leaf := new Node(key, priority);
      priorities := priorities + {priority};
      root := leaf;
      shape := Br(leaf, Leaf, Leaf);
      Nodes := {leaf};
    }

    /** The insertion proper of add(key, priority), once the descent has
        fallen off a non-empty tree: builds the node, registers its priority,
        hangs it below the last node of the path and restores heap order. */
    method AttachLeaf(path: seq<Node>, key: int, priority: int, ghost fs: seq<Frame>)
      requires Nodes == NodeSet(shape) && Wf(shape, priorities) && priority !in priorities
      requires path != [] && path == FrameNodes(fs) && shape == Plug(fs, Leaf) && FitsAll(fs, {key})
      requires root == Top(fs, null) && ZipMirrors(fs, null)
      modifies this, Nodes
      ensures Valid() && priorities == old(priorities) + {priority}
      ensures Keys(shape) == old(Keys(shape)) + {key} && Prios(shape) == old(Prios(shape)) + {priority}
      ensures old(Nodes) < Nodes && fresh(Nodes - old(Nodes))
    {
      var last := path[0];
      assert last == fs[0].n && ZipNodes(fs) == Nodes by {
        PlugSets(fs, Leaf);
      }
      assert last !in ZipNodes(fs[1..]) && last !in NodeSet(fs[0].sib) by {
        PlugParts(fs[1..], Attach(fs[0], Leaf));
      }
      var leaf := Graft(last, key, priority, fs);
      LeafFits(fs, leaf, old(priorities));
      LeafSets(fs, leaf);
      var climb := [leaf] + path;
      assert climb[1..] == path;
      ghost var t := Br(leaf, Leaf, Leaf);
      assert NodeSet(t) == {leaf};
      Reheap(climb, fs, t);
    }

    /** Builds the new node, registers its priority and links it below the
        last node of the descent: to its right when the last node's key is
        smaller, to its left otherwise. */
    method Graft(last: Node, key: int, priority: int, ghost fs: seq<Frame>) returns (leaf: Node)
      requires fs != [] && fs[0].n == last && ZipNodes(fs) <= Nodes
      requires root == Top(fs, null) && ZipMirrors(fs, null) && FitsAll(fs, {key})
      requires last !in ZipNodes(fs[1..]) && last !in NodeSet(fs[0].sib)
      modifies this`priorities, this`Nodes, last
      ensures fresh(leaf) && leaf.data == key && leaf.priority == priority
      ensures Nodes == old(Nodes) + {leaf}
      ensures leaf.left == null && leaf.right == null
      ensures priorities == old(priorities) + {priority}
      ensures Linked(root, fs, Br(leaf, Leaf, Leaf))
      ensures last.data < key ==> last.right == leaf && last.left == old(last.left)
      ensures last.data >= key ==> last.left == leaf && last.right == old(last.right)
    {
      leaf := new Node(key, priority);
      priorities := priorities + {priority};
      Nodes := Nodes + {leaf};
      if last.data < key {
        last.right := leaf;
      } else {
        last.left := leaf;
      }
      assert Top(fs, leaf) == Top(fs, null);
    }

    /** The reheap invariant: the pointers are the frames `fs` around a focus
        rooted at `child`, the shape they spell satisfies the value part
        ZipWf with registry `reg`, and these are all the nodes. */
    ghost predicate Climbing(child: Node, fs: seq<Frame>, focus: Tree, reg: set<int>)
      reads this, ZipNodes(fs), NodeSet(focus)
    {
      && focus.Br? && focus.node == child
      && Linked(root, fs, focus) && ZipWf(fs, focus, reg)
      && Nodes == ZipNodes(fs) + NodeSet(focus)
    }

    /** Restores heap order after an insertion: while the node on top of the
        path outranks the next one up, it is rotated above it. The path holds
        the new node first, then its ancestors from the parent up. */
    method Reheap(path: seq<Node>, ghost fs: seq<Frame>, ghost focus: Tree)
      requires |path| >= 1 && path[1..] == FrameNodes(fs) && Climbing(path[0], fs, focus, priorities)
      modifies this, Nodes
      ensures Valid() && priorities == old(priorities) && Nodes == old(Nodes)
      ensures Keys(shape) == Keys(Plug(fs, focus)) && Prios(shape) == Prios(Plug(fs, focus))
    {
      ghost var fz, fc := Climb(path, fs, focus, priorities);
      Settle(path[0], fz, fc);
    }

    /** The loop of reheap: while the node on top of the path outranks the
        next one up, it is rotated above it. Returns the frames and focus it
        stops at. */
    method Climb(path: seq<Node>, ghost fs: seq<Frame>, ghost focus: Tree, ghost reg: set<int>)
      returns (ghost fz: seq<Frame>, ghost fc: Tree)
      requires |path| >= 1 && path[1..] == FrameNodes(fs) && Climbing(path[0], fs, focus, reg)
      modifies this`root, Nodes
      ensures Climbing(path[0], fz, fc, reg)
      ensures fz != [] ==> path[0].priority <= fz[0].n.priority
      ensures Keys(Plug(fz, fc)) == Keys(Plug(fs, focus)) && Prios(Plug(fz, fc)) == Prios(Plug(fs, focus))
    {
      var child := path[0];
      fz, fc := fs, focus;
      if |path| > 1 {
        var parent: Node? := path[1];
        var rest := path[2..];
        while parent != null && parent.priority < child.priority
          invariant Climbing(child, fz, fc, reg)
          invariant fz == [] ==> parent == null
          invariant fz != [] ==> parent == fz[0].n && rest == FrameNodes(fz[1..])
          invariant var u, s := Plug(fz, fc), Plug(fs, focus);
            Keys(u) == Keys(s) && Prios(u) == Prios(s)
          decreases |fz|
        {
          var grandparent: Node? := if rest == [] then null else rest[0];
          rest := if rest == [] then [] else rest[1..];
          ghost var up, lifted := fz[1..], Lift(fz[0], fc);
          assert grandparent == (if |fz| > 1 then fz[1].n else null);
          Step(grandparent, parent, child, fz, fc, reg);
          fz, fc := up, lifted;
          parent := grandparent;
        }
      }
    }

    /** One iteration of the reheap loop, on the pointers and on the shape:
        `child` is rotated above `parent`, and the focus is lifted above the
        innermost frame, which keeps the reheap invariant. */
    method Step(grandparent: Node?, parent: Node, child: Node, ghost fs: seq<Frame>, ghost focus: Tree, ghost reg: set<int>)
      requires fs != [] && parent == fs[0].n
      requires grandparent == (if |fs| > 1 then fs[1].n else null)
      requires parent.priority < child.priority
      requires Climbing(child, fs, focus, reg)
      modifies this`root, Nodes
      ensures var up, lifted := fs[1..], Lift(fs[0], focus);
        && Climbing(child, up, lifted, reg)
        && Keys(Plug(up, lifted)) == Keys(Plug(fs, focus)) && Prios(Plug(up, lifted)) == Prios(Plug(fs, focus))
    {
      LiftStep(fs, focus, reg);
      LiftNodes(fs, focus);
      ZipApart(fs, focus);
      assert child in NodeSet(focus) && parent in ZipNodes(fs);
      assert grandparent != null ==> grandparent in ZipNodes(fs) by {
        if grandparent != null {
          assert grandparent in ZipNodes(fs[1..]);
        }
      }
      RotateUp(grandparent, parent, child, fs, focus);
    }

    /** The end of the reheap: once the focus no longer outranks its frame
        node, the links mirror a treap, which becomes the shape. */
    method Settle(child: Node, ghost fs: seq<Frame>, ghost focus: Tree)
      requires Climbing(child, fs, focus, priorities)
      requires fs != [] ==> child.priority <= fs[0].n.priority
      modifies this`shape
      ensures Valid() && shape == Plug(fs, focus)
    {
      ZipDone(fs, focus, priorities);
      ZipToMirrors(fs, child, focus);
      PlugSets(fs, focus);
      shape := Plug(fs, focus);
    }

    /** One iteration of the reheap loop: `child` is rotated above `parent`,
        right when it is the parent's left child and left otherwise, and the
        grandparent (or the root) is relinked to it. */
    method RotateUp(grandparent: Node?, parent: Node, child: Node, ghost fs: seq<Frame>, ghost focus: Tree)
      requires fs != [] && parent == fs[0].n && focus.Br? && focus.node == child
      requires grandparent == (if |fs| > 1 then fs[1].n else null)
      requires Linked(root, fs, focus) && ZipNodes(fs) + NodeSet(focus) <= Nodes
      requires Distinct(focus) && NodeSet(focus) !! ZipNodes(fs)
      requires fs[0].n !in NodeSet(fs[0].sib) && NodeSet(focus) !! NodeSet(fs[0].sib)
      requires fs[0].n !in ZipNodes(fs[1..]) && NodeSet(fs[0].sib) !! ZipNodes(fs[1..])
      requires |fs| > 1 ==> fs[1].n !in NodeSet(fs[1].sib) && fs[1].n !in ZipNodes(fs[2..])
      modifies this`root, grandparent, parent, child
      ensures Linked(root, fs[1..], Lift(fs[0], focus))
    {
      ghost var up := fs[1..];
      assert ZipMirrors(up, parent) && root == Top(up, parent);
      assert grandparent != null ==>
        && ZipNodes(up) == {grandparent} + NodeSet(up[0].sib) + ZipNodes(fs[2..])
        && (grandparent.left == parent || grandparent.right == parent);
      if parent.left == child {
        RotateUpRight(grandparent, parent, child, fs, focus);
      } else {
        RotateUpLeft(grandparent, parent, child, fs, focus);
      }
      if grandparent != null {
        assert Top(up, parent) == Top(up[1..], up[0].n) == Top(up, child);
      }
    }

    /** RotateUp when `child` is the parent's left child. */
    method RotateUpRight(grandparent: Node?, parent: Node, child: Node, ghost fs: seq<Frame>, ghost focus: Tree)
      requires fs != [] && fs[0] == WentLeft(parent, fs[0].sib) && parent.left == child && Mirrors(parent.right, fs[0].sib)
      requires fs != [] && parent == fs[0].n && focus.Br? && focus.node == child
      requires grandparent == (if |fs| > 1 then fs[1].n else null)
      requires NodeSet(focus.left) + NodeSet(focus.right) + NodeSet(fs[0].sib) + ZipNodes(fs[1..]) <= Nodes
      requires Mirrors(child, focus) && ZipMirrors(fs[1..], parent) && root == Top(fs[1..], parent)
      requires Distinct(focus) && NodeSet(focus) !! ZipNodes(fs)
      requires parent !in NodeSet(fs[0].sib) && NodeSet(focus) !! NodeSet(fs[0].sib)
      requires parent !in ZipNodes(fs[1..]) && NodeSet(fs[0].sib) !! ZipNodes(fs[1..])
      requires grandparent != null ==>
        && ZipNodes(fs[1..]) == {grandparent} + NodeSet(fs[1].sib) + ZipNodes(fs[2..])
        && grandparent !in NodeSet(fs[1].sib) && grandparent !in ZipNodes(fs[2..])
        && (grandparent.left == parent || grandparent.right == parent)
      modifies this`root, grandparent, parent, child
      ensures Mirrors(child, Lift(fs[0], focus)) && ZipMirrors(fs[1..], child)
      ensures grandparent == null ==> root == child
      ensures grandparent != null ==> root == old(root)
    {
      ghost var s, a, b := fs[0].sib, focus.left, focus.right;
      assert child !in NodeSet(a) + NodeSet(b) + NodeSet(s);
      assert Mirrors(child.left, a) && Mirrors(child.right, b);
      var r := SwapRight(grandparent, parent);
      assert r.Ok?;
      assert Mirrors(child.left, a) && Mirrors(parent.left, b) && Mirrors(parent.right, s);
    }

    /** RotateUp when `child` is the parent's right child. */
    method RotateUpLeft(grandparent: Node?, parent: Node, child: Node, ghost fs: seq<Frame>, ghost focus: Tree)
      requires fs != [] && fs[0] == WentRight(parent, fs[0].sib) && parent.right == child && Mirrors(parent.left, fs[0].sib)
      requires fs != [] && parent == fs[0].n && focus.Br? && focus.node == child
      requires grandparent == (if |fs| > 1 then fs[1].n else null)
      requires NodeSet(focus.left) + NodeSet(focus.right) + NodeSet(fs[0].sib) + ZipNodes(fs[1..]) <= Nodes
      requires Mirrors(child, focus) && ZipMirrors(fs[1..], parent) && root == Top(fs[1..], parent)
      requires Distinct(focus) && NodeSet(focus) !! ZipNodes(fs)
      requires parent !in NodeSet(fs[0].sib) && NodeSet(focus) !! NodeSet(fs[0].sib)
      requires parent !in ZipNodes(fs[1..]) && NodeSet(fs[0].sib) !! ZipNodes(fs[1..])
      requires grandparent != null ==>
        && ZipNodes(fs[1..]) == {grandparent} + NodeSet(fs[1].sib) + ZipNodes(fs[2..])
        && grandparent !in NodeSet(fs[1].sib) && grandparent !in ZipNodes(fs[2..])
        && (grandparent.left == parent || grandparent.right == parent)
      modifies this`root, grandparent, parent, child
      ensures Mirrors(child, Lift(fs[0], focus)) && ZipMirrors(fs[1..], child)
      ensures grandparent == null ==> root == child
      ensures grandparent != null ==> root == old(root)
    {
      ghost var s, a, b := fs[0].sib, focus.left, focus.right;
      assert child !in NodeSet(a) + NodeSet(b) + NodeSet(s);
      assert Mirrors(child.left, a) && Mirrors(child.right, b);
      var r := SwapLeft(grandparent, parent);
      assert r.Ok?;
      assert Mirrors(child.right, b) && Mirrors(parent.right, a) && Mirrors(parent.left, s);
    }

    /** Rotates `child` right, below `parent` (or at the root when there is no
        parent), and relinks the parent to the node that takes its place.
        Throws IllegalStateException when `child` is not a child of `parent`
        or has no left child. */
    method SwapRight(parent: Node?, child: Node) returns (r: Outcome<()>)
      requires child.left != child
      requires parent != null ==> parent != child && parent != child.left
      modifies this`root, parent, child, child.left
      ensures r.Thrown? <==>
        old(child.left) == null || (parent != null && old(parent.left) != child && old(parent.right) != child)
      ensures r.Thrown? ==>
        && r.error == IllegalState && root == old(root)
        && child.left == old(child.left) && child.right == old(child.right)
        && (parent != null ==> parent.left == old(parent.left) && parent.right == old(parent.right))
        && (old(child.left) != null ==>
              old(child.left).left == old(child.left.left) && old(child.left).right == old(child.left.right))
      ensures r.Ok? ==>
        var l := old(child.left);
        && l.right == child && l.left == old(l.left)
        && child.left == old(l.right) && child.right == old(child.right)
        && (parent == null ==> root == l)
        && (parent != null ==> root == old(root))
        && (parent != null && old(parent.left) == child ==> parent.left == l && parent.right == old(parent.right))
        && (parent != null && old(parent.left) != child ==> parent.right == l && parent.left == old(parent.left))
    {
      if parent == null {
        var rot := child.RotateRight();
        if rot.Ok? {
          root := rot.value;
        }
        return match rot case Ok(_) => Ok(()) case Thrown(e) => Thrown(e);
      }
      var rot: Outcome<Node>;
      if parent.left == child {
        rot := child.RotateRight();
        if rot.Ok? {
          parent.left := rot.value;
        }
      } else if parent.right == child {
        rot := child.RotateRight();
        if rot.Ok? {
          parent.right := rot.value;
        }
      } else {
        return Thrown(IllegalState);
      }
      return match rot case Ok(_) => Ok(()) case Thrown(e) => Thrown(e);
    }

    /** The mirror image of SwapRight. */
    method SwapLeft(parent: Node?, child: Node) returns (r: Outcome<()>)
      requires child.right != child
      requires parent != null ==> parent != child && parent != child.right
      modifies this`root, parent, child, child.right
      ensures r.Thrown? <==>
        old(child.right) == null || (parent != null && old(parent.left) != child && old(parent.right) != child)
      ensures r.Thrown? ==>
        && r.error == IllegalState && root == old(root)
        && child.left == old(child.left) && child.right == old(child.right)
        && (parent != null ==> parent.left == old(parent.left) && parent.right == old(parent.right))
        && (old(child.right) != null ==>
              old(child.right).left == old(child.right.left) && old(child.right).right == old(child.right.right))
      ensures r.Ok? ==>
        var l := old(child.right);
        && l.left == child && l.right == old(l.right)
        && child.right == old(l.left) && child.left == old(child.left)
        && (parent == null ==> root == l)
        && (parent != null ==> root == old(root))
        && (parent != null && old(parent.left) == child ==> parent.left == l && parent.right == old(parent.right))
        && (parent != null && old(parent.left) != child ==> parent.right == l && parent.left == old(parent.left))
    {
      if parent == null {
        var rot := child.RotateLeft();
        if rot.Ok? {
          root := rot.value;
        }
        return match rot case Ok(_) => Ok(()) case Thrown(e) => Thrown(e);
      }
      var rot: Outcome<Node>;
      if parent.left == child {
        rot := child.RotateLeft();
        if rot.Ok? {
          parent.left := rot.value;
        }
      } else if parent.right == child {
        rot := child.RotateLeft();
        if rot.Ok? {
          parent.right := rot.value;
        }
      } else {
        return Thrown(IllegalState);
      }
      return match rot case Ok(_) => Ok(()) case Thrown(e) => Thrown(e);
    }

    /** add(key): throws IllegalStateException when as many priorities are
        registered as the range holds; otherwise draws an unregistered
        priority below BOUND, registers it, and hands over to add(key,
        priority) — which then finds it registered and throws
        IllegalArgumentException (Treap.java:100-101), so the key is never
        added. The draw is a nondeterministic choice. */
    method AddRandom(key: int) returns (r: Outcome<bool>)
      requires Valid()
      requires |priorities| == BOUND || exists p :: 0 <= p < BOUND && p !in priorities
      modifies this, Nodes
      ensures Valid() && shape == old(shape)
      ensures |old(priorities)| == BOUND ==> r == Thrown(IllegalState) && priorities == old(priorities)
      ensures |old(priorities)| != BOUND ==>
        && r == Thrown(IllegalArgument)
        && old(priorities) < priorities && |priorities| == |old(priorities)| + 1
        && (forall p :: p in priorities && p !in old(priorities) ==> 0 <= p < BOUND)
    {
      if |priorities| == BOUND {
        return Thrown(IllegalState);
      }
      var priority :| 0 <= priority < BOUND && priority !in priorities;
      priorities := priorities + {priority};
      r := Add(key, priority);
    }

    /** add(key) as evidently intended: the drawn priority is handed to
        add(key, priority) without being registered first, and the intended
        add(key, priority) registers it when the key is new. */
    method AddRandomIntended(key: int) returns (r: Outcome<bool>)
      requires Valid()
      requires |priorities| == BOUND || exists p :: 0 <= p < BOUND && p !in priorities
      modifies this, Nodes
      ensures Valid()
      ensures |old(priorities)| == BOUND ==>
        r == Thrown(IllegalState) && priorities == old(priorities) && shape == old(shape)
      ensures |old(priorities)| != BOUND && key in old(Keys(shape)) ==>
        r == Ok(false) && priorities == old(priorities) && shape == old(shape)
      ensures |old(priorities)| != BOUND && key !in old(Keys(shape)) ==>
        && r == Ok(true) && Keys(shape) == old(Keys(shape)) + {key}
        && old(priorities) < priorities && |priorities| == |old(priorities)| + 1
        && (forall p :: p in priorities && p !in old(priorities) ==> 0 <= p < BOUND)
        && Prios(shape) == old(Prios(shape)) + (priorities - old(priorities))
    {
      if |priorities| == BOUND {
        return Thrown(IllegalState);
      }
      var priority :| 0 <= priority < BOUND && priority !in priorities;
      r := AddIntended(key, priority);
      assert r.Ok? && r.value ==> priorities - old(priorities) == {priority};
    }

    /** swapRight(parent, child) as written (Treap.java:169-181): with no
        parent it rotates `child`, but with a parent it rotates `parent`
        itself and stores the result back into `parent`, so the parent ends
        up linked in a two-node cycle. A missing link that `equals` is
        called on throws NullPointerException. */
    method SwapRightAsWritten(parent: Node?, child: Node) returns (r: Outcome<()>)
      requires child.left != child
      requires parent != null ==> parent.left != parent && parent != child
      modifies this`root, child, child.left, parent, if parent != null then {parent.left} else {}
      ensures parent == null && old(child.left) == null ==> r == Thrown(IllegalState)
      ensures parent == null && old(child.left) != null ==>
        && r == Ok(()) && root == old(child.left) && old(child.left).right == child
        && child.left == old(child.left.right) && child.right == old(child.right)
      ensures parent != null && old(parent.left) == null ==> r == Thrown(NullPointer)
      ensures parent != null && old(parent.left) == child ==>
        r == Ok(()) && parent.left == child && child.right == parent
      ensures parent != null && old(parent.left) != null && old(parent.left) != child ==>
        && (old(parent.right) == null ==> r == Thrown(NullPointer))
        && (old(parent.right) == child ==>
              r == Ok(()) && parent.right == old(parent.left) && old(parent.left).right == parent)
        && (old(parent.right) != null && old(parent.right) != child ==> r == Thrown(IllegalState))
    {
      if parent == null {
        var rot := child.RotateRight();
        if rot.Ok? {
          root := rot.value;
        }
        return match rot case Ok(_) => Ok(()) case Thrown(e) => Thrown(e);
      }
      if parent.left == null {
        // `parent.left.equals(child)`
        return Thrown(NullPointer);
      }
      var rot: Outcome<Node>;
      if parent.left == child {
        rot := parent.RotateRight();
        parent.left := rot.value;
      } else if parent.right == null {
        // `parent.right.equals(child)`
        return Thrown(NullPointer);
      } else if parent.right == child {
        rot := parent.RotateRight();
        parent.right := rot.value;
      } else {
        return Thrown(IllegalState);
      }
      return Ok(());
    }

    /** swapLeft(parent, child) as written (Treap.java:188-200), the mirror
        image of SwapRightAsWritten: with a parent it rotates `parent` left
        and the parent ends up in a two-node cycle. */
    method SwapLeftAsWritten(parent: Node?, child: Node) returns (r: Outcome<()>)
      requires child.right != child
      requires parent != null ==> parent.right != parent && parent != child
      modifies this`root, child, child.right, parent, if parent != null then {parent.right} else {}
      ensures parent == null && old(child.right) == null ==> r == Thrown(IllegalState)
      ensures parent == null && old(child.right) != null ==>
        && r == Ok(()) && root == old(child.right) && old(child.right).left == child
        && child.right == old(child.right.left) && child.left == old(child.left)
      ensures parent != null && old(parent.left) == null ==> r == Thrown(NullPointer)
      ensures parent != null && old(parent.left) == child && old(parent.right) == null ==> r == Thrown(IllegalState)
      ensures parent != null && old(parent.left) == child && old(parent.right) != null ==>
        r == Ok(()) && parent.left == old(parent.right) && old(parent.right).left == parent
      ensures parent != null && old(parent.left) != null && old(parent.left) != child ==>
        && (old(parent.right) == null ==> r == Thrown(NullPointer))
        && (old(parent.right) == child ==> r == Ok(()) && parent.right == child && child.left == parent)
        && (old(parent.right) != null && old(parent.right) != child ==> r == Thrown(IllegalState))
    {
      if parent == null {
        var rot := child.RotateLeft();
        if rot.Ok? {
          root := rot.value;
        }
        return match rot case Ok(_) => Ok(()) case Thrown(e) => Thrown(e);
      }
      if parent.left == null {
        // `parent.left.equals(child)`
        return Thrown(NullPointer);
      }
      var rot: Outcome<Node>;
      if parent.left == child {
        rot := parent.RotateLeft();
        if rot.Ok? {
          parent.left := rot.value;
        }
      } else if parent.right == null {
        // `parent.right.equals(child)`
        return Thrown(NullPointer);
      } else if parent.right == child {
        rot := parent.RotateLeft();
        parent.right := rot.value;
      } else {
        return Thrown(IllegalState);
      }
      return match rot case Ok(_) => Ok(()) case Thrown(e) => Thrown(e);
    }

    /** One pass of the reheap loop as written (Treap.java:155-160): the
        `equals` on `parent.left` throws NullPointerException when that link
        is missing; otherwise `parent` is rotated by the as-written
        swapRight when `child` is its left child, by the as-written swapLeft
        when it is not. */
    method ReheapPassAsWritten(grandparent: Node?, parent: Node, child: Node) returns (r: Outcome<()>)
      requires parent.left != parent && parent.right != parent
      requires grandparent != null ==>
        grandparent.left != grandparent && grandparent.right != grandparent && grandparent != parent
      modifies this`root, parent, parent.left, parent.right
      modifies if grandparent != null then {grandparent, grandparent.left, grandparent.right} else {}
      ensures old(parent.left) == null ==> r == Thrown(NullPointer)
      ensures grandparent == null && old(parent.left) == child ==>
        && r == Ok(()) && root == child && child.right == parent
        && parent.left == old(child.right) && parent.right == old(parent.right)
      ensures grandparent == null && old(parent.left) != null && old(parent.left) != child ==>
        && (old(parent.right) == null ==> r == Thrown(IllegalState))
        && (old(parent.right) != null ==>
              && r == Ok(()) && root == old(parent.right) && old(parent.right).left == parent
              && parent.right == old(parent.right.left) && parent.left == old(parent.left))
      ensures grandparent != null && old(parent.left) != null && old(grandparent.left) == null ==>
        r == Thrown(NullPointer)
    {
      if parent.left == null {
        // `parent.left.equals(child)`
        return Thrown(NullPointer);
      }
      if parent.left == child {
        r := SwapRightAsWritten(grandparent, parent);
      } else {
        r := SwapLeftAsWritten(grandparent, parent);
      }
    }

    /** delete(key) is an unfinished stub in the source: it reports success and
        changes nothing. */
    method Delete(key: int) returns (removed: bool)
      ensures removed
    {
      return true;
    }
  }

  /** As written, nothing can be added to a new treap: the descent leaves no
      last node, so add(key, priority) throws NullPointerException after
      registering the priority, and the key is not found afterwards. */
  method NewTreapAddAsWritten(key: int, priority: int) returns (added: Outcome<bool>, found: bool)
    ensures added == Thrown(NullPointer) && !found
  {
    var t := new Treap();
    added := t.Add(key, priority);
    found := t.Find(key);
  }

  /** With the intended add, a key added to a new treap is found. */
  method NewTreapAddIntended(key: int, priority: int) returns (added: Outcome<bool>, found: bool)
    ensures added == Ok(true) && found
  {
    var t := new Treap();
    added := t.AddIntended(key, priority);
    found := t.Find(key);
  }

  /** reheap as written (Treap.java:148-162) on the smallest input it can
      meet: a root of priority 1 whose new left child has priority 5. The
      first pass rotates the child above the root (there is no grandparent
      left on the path), but the loop never moves `child` and `parent` on,
      so its test holds again; the second pass calls `equals` on the old
      root's left link, which the rotation has emptied, and throws
      NullPointerException. */
  method ReheapAsWrittenTwoNodes() returns (first: Outcome<()>, second: Outcome<()>)
    ensures first == Ok(()) && second == Thrown(NullPointer)
  {
    var t := new Treap();
    var top := new Node(2, 1);
    var leaf := new Node(1, 5);
    top.left := leaf;
    t.root := top;
    var child, parent := leaf, top;
    // first pass: `parent.priority < child.priority`, no grandparent
    assert parent.priority < child.priority;
    first := t.ReheapPassAsWritten(null, parent, child);
    // second pass: the same test on the same two nodes, and the path is empty
    assert parent.priority < child.priority;
    second := t.ReheapPassAsWritten(null, parent, child);
  }
}
