/** `notes.trees.BTree`: an immutable binary tree (`Node` values with `data`,
    `left`, `right`; `null` is `Nil`) and its recursive utilities. */
module BTrees {
  import opened Java
  import opened Seqs

  datatype Tree<T> = Nil | Node(data: T, left: Tree<T>, right: Tree<T>)

  /** A `BTree` object: its root and the `size` its constructors record. */
  datatype BTree<T> = BTree(root: Tree<T>, size: int)

  /** The number of nodes. */
  function Size<T>(t: Tree<T>): nat
  {
    match t
    case Nil => 0
    case Node(_, l, r) => Size(l) + Size(r) + 1
  }

  /** The `size` field agrees with the nodes actually present. */
  predicate Counted<T>(b: BTree<T>)
  {
    b.size == Size(b.root)
  }

  /** BTree.java:30-33: the empty tree. */
  function Empty<T>(): (b: BTree<T>)
    ensures b.root.Nil? && Counted(b)
  {
    BTree(Nil, 0)
  }

  /** BTree.java:35-38: a one-node tree. */
  function Single<T>(item: T): (b: BTree<T>)
    ensures b.root == Node(item, Nil, Nil) && Counted(b)
  {
    BTree(Node(item, Nil, Nil), 1)
  }

  /** BTree.java:40-43: a new root over the roots of `lt` and `rt`; the size
      is the Java `int` sum, so it stays correct as long as it fits. */
  function Join<T>(item: T, lt: BTree<T>, rt: BTree<T>): (b: BTree<T>)
    ensures b.root == Node(item, lt.root, rt.root)
    ensures Counted(lt) && Counted(rt) && IsInt(lt.size + rt.size + 1) ==> Counted(b)
  {
    BTree(Node(item, lt.root, rt.root), AddInt(AddInt(lt.size, rt.size), 1))
  }

  /** BTree.java:45-55: 0 for the empty tree, otherwise one more than the
      taller subtree. */
  function Height<T>(t: Tree<T>): nat
  {
    match t
    case Nil => 0
    case Node(_, l, r) => 1 + Max(Height(l), Height(r))
  }

  function Max(a: int, b: int): int { if a < b then b else a }

  /** A tree is never taller than it has nodes, and is empty exactly when its
      height is 0. */
  lemma {:induction false} HeightBounds<T>(t: Tree<T>)
    ensures Height(t) <= Size(t)
    ensures Height(t) == 0 <==> t.Nil?
  {
    match t
    case Nil =>
    case Node(_, l, r) =>
      HeightBounds(l);
      HeightBounds(r);
  }

  /** BTree.java:57-63: a new tree with the children swapped at every node. */
  function Mirror<T>(t: Tree<T>): Tree<T>
  {
    match t
    case Nil => Nil
    case Node(d, l, r) => Node(d, Mirror(r), Mirror(l))
  }

  /** Mirroring twice gives back the tree. */
  lemma {:induction false} MirrorInvolutive<T>(t: Tree<T>)
    ensures Mirror(Mirror(t)) == t
  {
    match t
    case Nil =>
    case Node(_, l, r) =>
      MirrorInvolutive(l);
      MirrorInvolutive(r);
  }

  /** Mirroring keeps the height and the number of nodes. */
  lemma {:induction false} MirrorKeepsShape<T>(t: Tree<T>)
    ensures Height(Mirror(t)) == Height(t) && Size(Mirror(t)) == Size(t)
  {
    match t
    case Nil =>
    case Node(_, l, r) =>
      MirrorKeepsShape(l);
      MirrorKeepsShape(r);
  }

  /** BTree.java:65-67: the public `mirror()` builds the mirror image and
      drops it, so the tree is left as it was. */
  method MirrorDiscarded<T>(b: BTree<T>) returns (after: BTree<T>)
    ensures after == b
  {
    var image := Mirror(b.root);
    after := b;
  }

  /** BTree.java:69-78 as written, up to its third disjunct. The second and
      third disjuncts cannot both be false, so Java's short-circuit `||`
      never evaluates the two recursive disjuncts after them (lines 72-73). */
  function IsomorphicAsWritten<T>(t1: Tree<T>, t2: Tree<T>): bool
  {
    (t1.Nil? && t2.Nil?) || !(t1.Nil? && t2.Node?) || !(t1.Node? && t2.Nil?)
  }

  /** The as-written test calls an empty tree and a one-node tree isomorphic. */
  lemma AsWrittenAlwaysTrue<T>(t1: Tree<T>, t2: Tree<T>)
    ensures IsomorphicAsWritten(t1, t2)
  {
  }

  /** BTree.java:69-78 corrected: both empty, or both non-empty with the
      children pairing up either crosswise or straight. */
  function Isomorphic<T>(t1: Tree<T>, t2: Tree<T>): bool
  {
    (t1.Nil? && t2.Nil?)
    || (t1.Node? && t2.Node? &&
        ((Isomorphic(t1.left, t2.right) && Isomorphic(t1.right, t2.left))
         || (Isomorphic(t1.left, t2.left) && Isomorphic(t1.right, t2.right))))
  }

  /** Isomorphic trees have the same number of nodes, so the corrected test
      tells an empty tree from a non-empty one. */
  lemma {:induction false} IsomorphicSameSize<T>(t1: Tree<T>, t2: Tree<T>)
    requires Isomorphic(t1, t2)
    ensures Size(t1) == Size(t2)
  {
    match t1
    case Nil =>
    case Node(_, l1, r1) =>
      if Isomorphic(l1, t2.right) && Isomorphic(r1, t2.left) {
        IsomorphicSameSize(l1, t2.right);
        IsomorphicSameSize(r1, t2.left);
      } else {
        IsomorphicSameSize(l1, t2.left);
        IsomorphicSameSize(r1, t2.right);
      }
  }

  /** Every tree is isomorphic to its mirror image. */
  lemma {:induction false} IsomorphicToMirror<T>(t: Tree<T>)
    ensures Isomorphic(t, Mirror(t))
  {
    match t
    case Nil =>
    case Node(_, l, r) =>
      IsomorphicToMirror(l);
      IsomorphicToMirror(r);
  }

  /** The empty tree and a one-node tree: as written the test says yes, the
      corrected test says no. */
  lemma IsomorphicCounterexample<T>(item: T)
    ensures IsomorphicAsWritten(Nil, Node(item, Nil, Nil))
    ensures !Isomorphic(Nil, Node(item, Nil, Nil))
  {
  }

  /** BTree.java:80-94: data, then the left subtree, then the right. */
  function Preorder<T>(t: Tree<T>): seq<T>
  {
    match t
    case Nil => []
    case Node(d, l, r) => [d] + Preorder(l) + Preorder(r)
  }

  /** BTree.java:96-110: the left subtree, then data, then the right. */
  function Inorder<T>(t: Tree<T>): seq<T>
  {
    match t
    case Nil => []
    case Node(d, l, r) => Inorder(l) + [d] + Inorder(r)
  }

  /** BTree.java:112-126: the left subtree, then the right, then data. */
  function Postorder<T>(t: Tree<T>): seq<T>
  {
    match t
    case Nil => []
    case Node(d, l, r) => Postorder(l) + Postorder(r) + [d]
  }

  function Reverse<T>(s: seq<T>): (r: seq<T>)
    ensures |r| == |s| && forall i :: 0 <= i < |s| ==> r[i] == s[|s| - 1 - i]
  {
    if s == [] then [] else Reverse(s[1..]) + [s[0]]
  }

  lemma {:induction false} ReverseAppend<T>(a: seq<T>, b: seq<T>)
    ensures Reverse(a + b) == Reverse(b) + Reverse(a)
  {
    assert Reverse(a + b) == Reverse(b) + Reverse(a) by {
      var r, l := Reverse(a + b), Reverse(b) + Reverse(a);
      assert |r| == |l|;
      forall i | 0 <= i < |r| ensures r[i] == l[i] {
        if i < |b| {
          assert l[i] == Reverse(b)[i];
        } else {
          assert l[i] == Reverse(a)[i - |b|];
        }
      }
    }
  }

  /** The three traversals list every node exactly once. */
  lemma {:induction false} TraversalsAgree<T>(t: Tree<T>)
    ensures |Preorder(t)| == Size(t)
    ensures multiset(Inorder(t)) == multiset(Preorder(t)) == multiset(Postorder(t))
  {
    match t
    case Nil =>
    case Node(_, l, r) =>
      TraversalsAgree(l);
      TraversalsAgree(r);
  }

  /** Mirroring reverses the in-order listing. */
  lemma {:induction false} MirrorInorder<T>(t: Tree<T>)
    ensures Inorder(Mirror(t)) == Reverse(Inorder(t))
  {
    match t
    case Nil =>
    case Node(d, l, r) =>
      MirrorInorder(l);
      MirrorInorder(r);
      ReverseAppend(Inorder(l) + [d], Inorder(r));
      ReverseAppend(Inorder(l), [d]);
      Associative(Reverse(Inorder(r)), [d], Reverse(Inorder(l)));
  }

  /** Mirroring turns the pre-order listing into the reversed post-order
      one. */
  lemma {:induction false} MirrorPreorder<T>(t: Tree<T>)
    ensures Preorder(Mirror(t)) == Reverse(Postorder(t))
  {
    match t
    case Nil =>
    case Node(d, l, r) =>
      MirrorPreorder(l);
      MirrorPreorder(r);
      ReverseAppend(Postorder(l) + Postorder(r), [d]);
      ReverseAppend(Postorder(l), Postorder(r));
      Associative([d], Reverse(Postorder(r)), Reverse(Postorder(l)));
  }

  /** BTree.java:128-144: a node wherever either tree has one, holding the
      Java `int` sum where both do and the lone value otherwise. */
  function SumTree(t1: Tree<int>, t2: Tree<int>): Tree<int>
  {
    if t1.Nil? && t2.Nil? then Nil
    else if t1.Nil? then Node(t2.data, SumTree(Nil, t2.left), SumTree(Nil, t2.right))
    else if t2.Nil? then Node(t1.data, SumTree(t1.left, Nil), SumTree(t1.right, Nil))
    else Node(AddInt(t1.data, t2.data), SumTree(t1.left, t2.left), SumTree(t1.right, t2.right))
  }

  /** Summing with an empty tree copies the other tree. */
  lemma {:induction false} SumWithEmpty(t: Tree<int>)
    ensures SumTree(t, Nil) == t && SumTree(Nil, t) == t
  {
    match t
    case Nil =>
    case Node(_, l, r) =>
      SumWithEmpty(l);
      SumWithEmpty(r);
  }

  /** The sum does not depend on the order of its arguments, is as tall as
      the taller argument, and holds the node-by-node sum where both trees
      have a root. */
  lemma {:induction false} SumTreeShape(t1: Tree<int>, t2: Tree<int>)
    ensures SumTree(t1, t2) == SumTree(t2, t1)
    ensures Height(SumTree(t1, t2)) == Max(Height(t1), Height(t2))
    ensures t1.Node? && t2.Node? ==> SumTree(t1, t2).data == AddInt(t1.data, t2.data)
    ensures t1.Node? && t2.Node? && IsInt(t1.data + t2.data) ==> SumTree(t1, t2).data == t1.data + t2.data
  {
    if t1.Nil? && t2.Nil? {
    } else if t1.Nil? {
      SumTreeShape(Nil, t2.left);
      SumTreeShape(Nil, t2.right);
    } else if t2.Nil? {
      SumTreeShape(t1.left, Nil);
      SumTreeShape(t1.right, Nil);
    } else {
      SumTreeShape(t1.left, t2.left);
      SumTreeShape(t1.right, t2.right);
    }
  }

  /** The data of the nodes at depth `k` (the root is at depth 0), left to
      right. */
  function AtDepth<T>(t: Tree<T>, k: nat): seq<T>
  {
    match t
    case Nil => []
    case Node(d, l, r) => if k == 0 then [d] else AtDepth(l, k - 1) + AtDepth(r, k - 1)
  }

  // A forest is a queue of subtrees, as the breadth-first searches hold them.

  /** The non-empty children of a node, left first, as the searches enqueue
      them. */
  function Kids<T>(t: Tree<T>): seq<Tree<T>>
  {
    match t
    case Nil => []
    case Node(_, l, r) => (if l.Node? then [l] else []) + (if r.Node? then [r] else [])
  }

  function KidsF<T>(f: seq<Tree<T>>): seq<Tree<T>>
  {
    if f == [] then [] else Kids(f[0]) + KidsF(f[1..])
  }

  /** The data at the roots of a forest. */
  function Roots<T>(f: seq<Tree<T>>): seq<T>
  {
    if f == [] then [] else (if f[0].Node? then [f[0].data] else []) + Roots(f[1..])
  }

  function SizeF<T>(f: seq<Tree<T>>): nat
  {
    if f == [] then 0 else Size(f[0]) + SizeF(f[1..])
  }

  function HeightF<T>(f: seq<Tree<T>>): nat
  {
    if f == [] then 0 else Max(Height(f[0]), HeightF(f[1..]))
  }

  function AtDepthF<T>(f: seq<Tree<T>>, k: nat): seq<T>
  {
    if f == [] then [] else AtDepth(f[0], k) + AtDepthF(f[1..], k)
  }

  function PreorderF<T>(f: seq<Tree<T>>): seq<T>
  {
    if f == [] then [] else Preorder(f[0]) + PreorderF(f[1..])
  }

  predicate NoNil<T>(f: seq<Tree<T>>)
  {
    forall i :: 0 <= i < |f| ==> f[i].Node?
  }

  function Flatten<T>(ss: seq<seq<T>>): seq<T>
  {
    if ss == [] then [] else ss[0] + Flatten(ss[1..])
  }

  lemma {:induction false} SizeAppend<T>(a: seq<Tree<T>>, b: seq<Tree<T>>)
    ensures SizeF(a + b) == SizeF(a) + SizeF(b)
  {
    if a != [] {
      assert (a + b)[1..] == a[1..] + b;
      SizeAppend(a[1..], b);
    } else {
      assert a + b == b;
    }
  }

  lemma {:induction false} HeightAppend<T>(a: seq<Tree<T>>, b: seq<Tree<T>>)
    ensures HeightF(a + b) == Max(HeightF(a), HeightF(b))
  {
    if a != [] {
      assert (a + b)[1..] == a[1..] + b;
      HeightAppend(a[1..], b);
    } else {
      assert a + b == b;
    }
  }

  lemma {:induction false} KidsAppend<T>(a: seq<Tree<T>>, b: seq<Tree<T>>)
    ensures KidsF(a + b) == KidsF(a) + KidsF(b)
  {
    if a != [] {
      assert (a + b)[1..] == a[1..] + b;
      KidsAppend(a[1..], b);
    } else {
      assert a + b == b;
    }
  }

  lemma {:induction false} RootsAppend<T>(a: seq<Tree<T>>, b: seq<Tree<T>>)
    ensures Roots(a + b) == Roots(a) + Roots(b)
  {
    if a != [] {
      assert (a + b)[1..] == a[1..] + b;
      RootsAppend(a[1..], b);
    } else {
      assert a + b == b;
    }
  }

  lemma {:induction false} AtDepthAppend<T>(a: seq<Tree<T>>, b: seq<Tree<T>>, k: nat)
    ensures AtDepthF(a + b, k) == AtDepthF(a, k) + AtDepthF(b, k)
  {
    if a != [] {
      assert (a + b)[1..] == a[1..] + b;
      AtDepthAppend(a[1..], b, k);
    } else {
      assert a + b == b;
    }
  }

  lemma {:induction false} PreorderAppend<T>(a: seq<Tree<T>>, b: seq<Tree<T>>)
    ensures PreorderF(a + b) == PreorderF(a) + PreorderF(b)
  {
    if a != [] {
      assert (a + b)[1..] == a[1..] + b;
      PreorderAppend(a[1..], b);
    } else {
      assert a + b == b;
    }
  }

  /** Stepping to the children of a forest lowers its height by one level
      (or leaves nothing at all). */
  lemma {:induction false} KidsLower<T>(f: seq<Tree<T>>)
    ensures HeightF(KidsF(f)) == if HeightF(f) == 0 then 0 else HeightF(f) - 1
    ensures HeightF(f) == 0 ==> KidsF(f) == []
    ensures NoNil(KidsF(f))
  {
    if f != [] {
      KidsLower(f[1..]);
      HeightAppend(Kids(f[0]), KidsF(f[1..]));
      var x := f[0];
      if x.Node? {
        assert HeightF([x.left]) == Height(x.left);
        assert HeightF([x.right]) == Height(x.right);
        HeightAppend(if x.left.Node? then [x.left] else [], if x.right.Node? then [x.right] else []);
      }
    }
  }

  /** The root data of each level of a forest, top level first: the lists
      `bfs2` returns. */
  function Levels<T>(f: seq<Tree<T>>): seq<seq<T>>
    decreases HeightF(f), |f|
  {
    if f == [] then []
    else
      KidsLower(f);
      [Roots(f)] + Levels(KidsF(f))
  }

  /** Level order: the levels one after the other. */
  function LevelOrder<T>(f: seq<Tree<T>>): seq<T>
  {
    Flatten(Levels(f))
  }

  /** Level `k` of a forest is the data at depth `k` in its trees. */
  lemma {:induction false} LevelIsDepth<T>(f: seq<Tree<T>>, k: nat)
    requires k < |Levels(f)|
    ensures Levels(f)[k] == AtDepthF(f, k)
    decreases k
  {
    if k == 0 {
      RootsAreTop(f);
    } else {
      KidsLower(f);
      assert f != [];
      var rest := Levels(KidsF(f));
      assert Levels(f) == [Roots(f)] + rest;
      assert Levels(f)[k] == rest[k - 1];
      LevelIsDepth(KidsF(f), k - 1);
      KidsAreNext(f, k - 1);
    }
  }

  lemma {:induction false} RootsAreTop<T>(f: seq<Tree<T>>)
    ensures Roots(f) == AtDepthF(f, 0)
  {
    if f != [] {
      RootsAreTop(f[1..]);
    }
  }

  lemma {:induction false} KidsAreNext<T>(f: seq<Tree<T>>, k: nat)
    ensures AtDepthF(KidsF(f), k) == AtDepthF(f, k + 1)
  {
    if f != [] {
      KidsAreNext(f[1..], k);
      AtDepthAppend(Kids(f[0]), KidsF(f[1..]), k);
      var x := f[0];
      if x.Node? {
        AtDepthAppend(if x.left.Node? then [x.left] else [], if x.right.Node? then [x.right] else [], k);
        assert AtDepthF([x.left], k) == AtDepth(x.left, k);
        assert AtDepthF([x.right], k) == AtDepth(x.right, k);
      }
    }
  }

  /** A forest without empty trees has one level per unit of height. */
  lemma {:induction false} LevelCount<T>(f: seq<Tree<T>>)
    requires NoNil(f)
    ensures |Levels(f)| == HeightF(f)
    decreases HeightF(f), |f|
  {
    if f != [] {
      KidsLower(f);
      LevelCount(KidsF(f));
      assert Height(f[0]) >= 1;
    }
  }

  /** For a non-empty tree: one level per unit of height, level `k` being
      the data at depth `k`. */
  lemma LevelsOfTree<T>(t: Tree<T>)
    requires t.Node?
    ensures |Levels([t])| == Height(t)
    ensures forall k :: 0 <= k < Height(t) ==> Levels([t])[k] == AtDepth(t, k)
  {
    LevelCount([t]);
    forall k | 0 <= k < Height(t) ensures Levels([t])[k] == AtDepth(t, k) {
      LevelIsDepth([t], k);
    }
  }

  /** What a FIFO queue of subtrees yields when each dequeued node is
      recorded and its non-empty children are enqueued. */
  function QueueOrder<T>(q: seq<Tree<T>>): seq<T>
    decreases 2 * SizeF(q) + |q|
  {
    if q == [] then []
    else
      SizeAppend(q[1..], Kids(q[0]));
      KidsSize(q[0]);
      (if q[0].Node? then [q[0].data] else []) + QueueOrder(q[1..] + Kids(q[0]))
  }

  lemma {:induction false} KidsSize<T>(t: Tree<T>)
    ensures SizeF(Kids(t)) == if t.Nil? then 0 else Size(t) - 1
    ensures |Kids(t)| <= 2
  {
    if t.Node? {
      assert SizeF([t.left]) == Size(t.left);
      assert SizeF([t.right]) == Size(t.right);
      SizeAppend(if t.left.Node? then [t.left] else [], if t.right.Node? then [t.right] else []);
    }
  }

  /** Dequeuing a node and enqueuing its children shrinks the queue's
      measure. */
  lemma {:induction false} QueueShrinks<T>(q: seq<Tree<T>>)
    requires q != []
    ensures 2 * SizeF(q[1..] + Kids(q[0])) + |q[1..] + Kids(q[0])| < 2 * SizeF(q) + |q|
  {
    SizeAppend(q[1..], Kids(q[0]));
    KidsSize(q[0]);
    SizeAppend([q[0]], q[1..]);
    assert q == [q[0]] + q[1..];
  }

  lemma {:induction false} LevelOrderStep<T>(f: seq<Tree<T>>)
    requires f != []
    ensures LevelOrder(f) == ((if f[0].Node? then [f[0].data] else []) + Roots(f[1..])) + LevelOrder(KidsF(f))
  {
    KidsLower(f);
    assert Levels(f) == [Roots(f)] + Levels(KidsF(f));
  }

  /** The queue holds the rest `s` of one level followed by children `k` of
      that level's processed part: the queue then yields `s`'s roots and
      afterwards the level order of the children, `k` first. */
  lemma {:induction false} QueueIsLevelOrder<T>(s: seq<Tree<T>>, k: seq<Tree<T>>)
    ensures QueueOrder(s + k) == Roots(s) + LevelOrder(k + KidsF(s))
    decreases 2 * SizeF(s + k) + |s + k|, 1
  {
    if s == [] {
      assert s + k == k && k + KidsF(s) == k;
      QueueLevelOrder(k);
    } else {
      var x := s[0];
      var head := if x.Node? then [x.data] else [];
      var rest, later := s[1..] + (k + Kids(x)), LevelOrder(k + KidsF(s));
      DequeueFirst(s, k);
      assert QueueOrder(rest) == Roots(s[1..]) + later by {
        QueueIsLevelOrder(s[1..], k + Kids(x));
        ShiftKids(s, k);
      }
      assert Roots(s) == head + Roots(s[1..]);
      assert QueueOrder(s + k) == head + QueueOrder(rest);
      assert head + QueueOrder(rest) == head + (Roots(s[1..]) + later);
      Associative(head, Roots(s[1..]), later);
    }
  }

  /** Enqueuing a node's left child, then its right child, each only when
      present, appends its `Kids`. */
  lemma {:induction false} Enqueued<T>(polled: seq<Tree<T>>, withLeft: seq<Tree<T>>, after: seq<Tree<T>>, x: Tree<T>)
    requires x.Node?
    requires withLeft == if x.left.Node? then polled + [x.left] else polled
    requires after == if x.right.Node? then withLeft + [x.right] else withLeft
    ensures after == polled + Kids(x)
  {
    var l, r := if x.left.Node? then [x.left] else [], if x.right.Node? then [x.right] else [];
    assert withLeft == polled + l && after == withLeft + r;
    Associative(polled, l, r);
  }

  /** Polling the first tree of `s` from the queue `s + k`. */
  lemma {:induction false} DequeueFirst<T>(s: seq<Tree<T>>, k: seq<Tree<T>>)
    requires s != []
    ensures QueueOrder(s + k) == (if s[0].Node? then [s[0].data] else []) + QueueOrder(s[1..] + (k + Kids(s[0])))
    ensures 2 * SizeF(s[1..] + (k + Kids(s[0]))) + |s[1..] + (k + Kids(s[0]))| < 2 * SizeF(s + k) + |s + k|
  {
    var q := s + k;
    assert q[0] == s[0] && q[1..] + Kids(s[0]) == s[1..] + (k + Kids(s[0]));
    Dequeue(q);
  }

  /** The children of a forest's first tree come first among its
      children. */
  lemma {:induction false} ShiftKids<T>(s: seq<Tree<T>>, k: seq<Tree<T>>)
    requires s != []
    ensures (k + Kids(s[0])) + KidsF(s[1..]) == k + KidsF(s)
  {
    assert KidsF(s) == Kids(s[0]) + KidsF(s[1..]);
  }

  /** The FIFO queue yields exactly the level order. */
  lemma {:induction false} QueueLevelOrder<T>(q: seq<Tree<T>>)
    ensures QueueOrder(q) == LevelOrder(q)
    decreases 2 * SizeF(q) + |q|, 0
  {
    if q != [] {
      var x := q[0];
      var head := if x.Node? then [x.data] else [];
      var rest := QueueOrder(q[1..] + Kids(x));
      assert QueueOrder(q) == head + rest by {
        Dequeue(q);
      }
      assert rest == Roots(q[1..]) + LevelOrder(KidsF(q)) by {
        Dequeue(q);
        QueueIsLevelOrder(q[1..], Kids(x));
        assert KidsF(q) == Kids(x) + KidsF(q[1..]);
      }
      LevelOrderStep(q);
    }
  }

  /** The queue yields every node of its trees exactly once. */
  lemma {:induction false} QueueYieldsAll<T>(q: seq<Tree<T>>)
    ensures multiset(QueueOrder(q)) == multiset(PreorderF(q))
    decreases 2 * SizeF(q) + |q|
  {
    if q != [] {
      var x, rest := q[0], q[1..];
      QueueShrinks(q);
      QueueYieldsAll(rest + Kids(x));
      PreorderAppend(rest, Kids(x));
      KidsPreorder(x);
      var head := if x.Node? then [x.data] else [];
      assert QueueOrder(q) == head + QueueOrder(rest + Kids(x));
      assert PreorderF(q) == Preorder(x) + PreorderF(rest);
      assert multiset(Preorder(x)) == multiset(head) + multiset(PreorderF(Kids(x)));
    }
  }

  /** A node's pre-order listing is its data followed by its children's. */
  lemma {:induction false} KidsPreorder<T>(x: Tree<T>)
    ensures x.Nil? ==> PreorderF(Kids(x)) == []
    ensures x.Node? ==> Preorder(x) == [x.data] + PreorderF(Kids(x))
  {
    if x.Node? {
      var left := if x.left.Node? then [x.left] else [];
      var right := if x.right.Node? then [x.right] else [];
      assert Kids(x) == left + right;
      PreorderAppend(left, right);
      assert PreorderF(left) == Preorder(x.left) by {
        if x.left.Node? { assert PreorderF([x.left]) == Preorder(x.left) + PreorderF([]); }
      }
      assert PreorderF(right) == Preorder(x.right) by {
        if x.right.Node? { assert PreorderF([x.right]) == Preorder(x.right) + PreorderF([]); }
      }
    }
  }

  /** Polling a node from the queue and enqueuing its children. */
  lemma {:induction false} Dequeue<T>(q: seq<Tree<T>>)
    requires q != []
    ensures QueueOrder(q) == (if q[0].Node? then [q[0].data] else []) + QueueOrder(q[1..] + Kids(q[0]))
    ensures 2 * SizeF(q[1..] + Kids(q[0])) + |q[1..] + Kids(q[0])| < 2 * SizeF(q) + |q|
    ensures NoNil(q) ==> NoNil(q[1..] + Kids(q[0]))
  {
    QueueShrinks(q);
  }

  /** BTree.java:146-159. Breadth-first listing of the data with a FIFO
      queue that starts with the root; an empty tree puts `null` in the queue
      and dereferencing it throws. */
  method Bfs<T>(t: Tree<T>) returns (r: Outcome<seq<T>>)
    ensures t.Nil? ==> r == Thrown(NullPointer)
    ensures t.Node? ==> r.Ok? && r.value == LevelOrder([t])
    ensures t.Node? ==> multiset(r.value) == multiset(Preorder(t))
  {
    var result: seq<T> := [];
    var q := [t];
    while q != []
      invariant t.Node? ==> NoNil(q)
      invariant t.Nil? ==> q == [t]
      invariant result + QueueOrder(q) == QueueOrder([t])
      decreases 2 * SizeF(q) + |q|
    {
      var curr := q[0];
      if curr.Nil? {
        return Thrown(NullPointer);
      }
      Dequeue(q);
      ghost var next := q[1..] + Kids(curr);
      Associative(result, [curr.data], QueueOrder(next));
      result := result + [curr.data];
      q := q[1..];
      ghost var polled := q;
      if curr.left.Node? {
        q := q + [curr.left];
      }
      ghost var withLeft := q;
      if curr.right.Node? {
        q := q + [curr.right];
      }
      Enqueued(polled, withLeft, q, curr);
    }
    QueueLevelOrder([t]);
    QueueYieldsAll([t]);
    assert PreorderF([t]) == Preorder(t);
    r := Ok(result);
  }

  /** BTree.java:161-180. Level by level: a `null` marker is enqueued behind
      the current level, and the nodes up to the marker make one list. On an
      empty tree the loop never ends, so the root must be a node. */
  method Bfs2<T>(t: Tree<T>) returns (result: seq<seq<T>>)
    requires t.Node?
    ensures result == Levels([t])
    ensures |result| == Height(t) && forall k :: 0 <= k < |result| ==> result[k] == AtDepth(t, k)
  {
    result := [];
    var q := [t];
    while q != []
      invariant NoNil(q)
      invariant result + Levels(q) == Levels([t])
      decreases HeightF(q), |q|
    {
      ghost var lv := q;
      q := q + [Nil];
      var level;
      level, q := ScanLevel(q, lv);
      result := result + [level];
      KidsLower(lv);
      assert Levels(lv) == [Roots(lv)] + Levels(KidsF(lv));
    }
    LevelsOfTree(t);
  }

  /** BTree.java:167-176, the inner loop of `bfs2`: polls and records the
      nodes up to the `null` marker, enqueuing their children behind it. */
  method ScanLevel<T>(q0: seq<Tree<T>>, ghost lv: seq<Tree<T>>) returns (level: seq<T>, q: seq<Tree<T>>)
    requires q0 == lv + [Nil] && NoNil(lv)
    ensures level == Roots(lv) && q == KidsF(lv)
  {
    var curr := q0[0];
    q := q0[1..];
    level := [];
    ghost var done: seq<Tree<T>> := [];
    ghost var rest := lv;
    assert [curr] + q == q0;
    while curr.Node?
      invariant [curr] + q == rest + [Nil] + KidsF(done)
      invariant done + rest == lv && NoNil(rest)
      invariant level == Roots(done)
      decreases |rest|
    {
      Front(curr, q, rest, KidsF(done));
      level := level + [curr.data];
      ghost var polled := q;
      if curr.left.Node? {
        q := q + [curr.left];
      }
      ghost var withLeft := q;
      if curr.right.Node? {
        q := q + [curr.right];
      }
      Enqueued(polled, withLeft, q, curr);
      Processed(done, rest, curr);
      done, rest := done + [curr], rest[1..];
      assert q == rest + [Nil] + KidsF(done);
      ghost var whole := q;
      curr := q[0];
      q := q[1..];
      assert [curr] + q == whole;
    }
    Front(curr, q, rest, KidsF(done));
    assert done == lv by {
      assert done + rest == done;
    }
  }

  /** Polling the queue `rest + [null] + tail`. */
  lemma {:induction false} Front<T>(curr: Tree<T>, q: seq<Tree<T>>, rest: seq<Tree<T>>, tail: seq<Tree<T>>)
    requires [curr] + q == rest + [Nil] + tail && NoNil(rest)
    ensures curr.Node? ==> rest != [] && rest[0] == curr && q == rest[1..] + [Nil] + tail
    ensures curr.Nil? ==> rest == [] && q == tail
  {
    if rest == [] {
      assert ([curr] + q)[0] == Nil;
      assert q == ([curr] + q)[1..];
    } else {
      assert ([curr] + q)[0] == rest[0];
      assert q == ([curr] + q)[1..] == (rest + [Nil] + tail)[1..];
    }
  }

  /** Moving one node from the unprocessed part of a level to the processed
      part, with its children enqueued. */
  lemma {:induction false} Processed<T>(done: seq<Tree<T>>, rest: seq<Tree<T>>, curr: Tree<T>)
    requires rest != [] && rest[0] == curr
    ensures rest[1..] + [Nil] + KidsF(done) + Kids(curr) == rest[1..] + [Nil] + KidsF(done + [curr])
    ensures done + rest == (done + [curr]) + rest[1..]
    ensures Roots(done) + (if curr.Node? then [curr.data] else []) == Roots(done + [curr])
  {
    assert KidsF(done + [curr]) == KidsF(done) + Kids(curr) by {
      KidsAppend(done, [curr]);
      assert KidsF([curr]) == Kids(curr);
    }
    assert Roots(done) + (if curr.Node? then [curr.data] else []) == Roots(done + [curr]) by {
      RootsAppend(done, [curr]);
      assert Roots([curr]) == if curr.Node? then [curr.data] else [];
    }
    assert done + rest == (done + [curr]) + rest[1..] by {
      assert rest == [curr] + rest[1..];
    }
  }

  /** The subtree reached by following `dirs` (`false` = left) from the root. */
  function Locate<T>(t: Tree<T>, dirs: seq<bool>): Tree<T>
  {
    if dirs == [] || t.Nil? then t
    else Locate(if dirs[0] then t.right else t.left, dirs[1..])
  }

  /** The data of the nodes passed on the way, the root first and the node
      reached excluded. */
  function Along<T>(t: Tree<T>, dirs: seq<bool>): seq<T>
  {
    if dirs == [] || t.Nil? then []
    else [t.data] + Along(if dirs[0] then t.right else t.left, dirs[1..])
  }

  /** The position in the pre-order listing of the node reached. */
  function PreIndex<T>(t: Tree<T>, dirs: seq<bool>): nat
  {
    if dirs == [] || t.Nil? then 0
    else if dirs[0] then 1 + |Preorder(t.left)| + PreIndex(t.right, dirs[1..])
    else 1 + PreIndex(t.left, dirs[1..])
  }

  /** `PreIndex` does point at the node reached. */
  lemma {:induction false} PreIndexLocates<T>(t: Tree<T>, dirs: seq<bool>)
    requires Locate(t, dirs).Node?
    ensures PreIndex(t, dirs) < |Preorder(t)|
    ensures Preorder(t)[PreIndex(t, dirs)] == Locate(t, dirs).data
  {
    if dirs == [] || t.Nil? {
    } else if dirs[0] {
      PreIndexLocates(t.right, dirs[1..]);
      InRight(t, PreIndex(t.right, dirs[1..]));
    } else {
      PreIndexLocates(t.left, dirs[1..]);
      InLeft(t, PreIndex(t.left, dirs[1..]));
    }
  }

  /** Position `i` of the left subtree's pre-order listing is position
      `1 + i` of the whole tree's. */
  lemma {:induction false} InLeft<T>(t: Tree<T>, i: nat)
    requires t.Node? && i < |Preorder(t.left)|
    ensures 1 + i < |Preorder(t)| && Preorder(t)[1 + i] == Preorder(t.left)[i]
  {
    assert Preorder(t) == [t.data] + (Preorder(t.left) + Preorder(t.right));
  }

  /** Position `j` of the right subtree's listing comes after the root and
      the whole left subtree. */
  lemma {:induction false} InRight<T>(t: Tree<T>, j: nat)
    requires t.Node? && j < |Preorder(t.right)|
    ensures 1 + |Preorder(t.left)| + j < |Preorder(t)|
    ensures Preorder(t)[1 + |Preorder(t.left)| + j] == Preorder(t.right)[j]
  {
    assert Preorder(t) == ([t.data] + Preorder(t.left)) + Preorder(t.right);
  }

  /** `dirs` leads to a node holding `item` that comes before every other
      such node in pre-order (left subtrees searched first). */
  ghost predicate FirstMatch<T>(t: Tree<T>, dirs: seq<bool>, item: T)
  {
    Locate(t, dirs).Node? && Locate(t, dirs).data == item &&
    PreIndex(t, dirs) <= |Preorder(t)| && item !in Preorder(t)[..PreIndex(t, dirs)]
  }

  /** BTree.java:182-194. Searches the left subtree before the right and, on
      the way back from a match, prepends each ancestor's data to the shared
      list; a failed search leaves the list alone. */
  method AncestorsFrom<T(==)>(item: T, curr: Tree<T>, path: seq<T>) returns (found: bool, after: seq<T>)
    ensures found <==> item in Preorder(curr)
    ensures !found ==> after == path
    ensures found ==> exists dirs :: FirstMatch(curr, dirs, item) && after == Along(curr, dirs) + path
    decreases curr
  {
    if curr.Nil? {
      return false, path;
    } else if curr.data == item {
      assert FirstMatch(curr, [], item);
      return true, path;
    }
    found, after := AncestorsFrom(item, curr.left, path);
    if found {
      ghost var dl :| FirstMatch(curr.left, dl, item) && after == Along(curr.left, dl) + path;
      MatchLeft(curr, dl, item);
      Associative([curr.data], Along(curr.left, dl), path);
      after := [curr.data] + after;
      assert FirstMatch(curr, [false] + dl, item) && after == Along(curr, [false] + dl) + path;
      return true, after;
    }
    found, after := AncestorsFrom(item, curr.right, path);
    if found {
      ghost var dr :| FirstMatch(curr.right, dr, item) && after == Along(curr.right, dr) + path;
      MatchRight(curr, dr, item);
      Associative([curr.data], Along(curr.right, dr), path);
      after := [curr.data] + after;
      assert FirstMatch(curr, [true] + dr, item) && after == Along(curr, [true] + dr) + path;
      return true, after;
    }
    NoMatch(curr, item);
    return false, after;
  }

  /** A first match in the left subtree of a node not holding `item` is a
      first match in the whole tree, one level further down. */
  lemma {:induction false} MatchLeft<T>(t: Tree<T>, dl: seq<bool>, item: T)
    requires t.Node? && t.data != item && FirstMatch(t.left, dl, item)
    ensures FirstMatch(t, [false] + dl, item) && item in Preorder(t)
    ensures Along(t, [false] + dl) == [t.data] + Along(t.left, dl)
  {
    var dirs := [false] + dl;
    assert dirs[1..] == dl;
    PreIndexLocates(t.left, dl);
    assert Preorder(t) == [t.data] + (Preorder(t.left) + Preorder(t.right));
    assert Preorder(t)[..PreIndex(t, dirs)] == [t.data] + Preorder(t.left)[..PreIndex(t.left, dl)];
  }

  /** The same for the right subtree, when the left one does not hold
      `item`. */
  lemma {:induction false} MatchRight<T>(t: Tree<T>, dr: seq<bool>, item: T)
    requires t.Node? && t.data != item && item !in Preorder(t.left) && FirstMatch(t.right, dr, item)
    ensures FirstMatch(t, [true] + dr, item) && item in Preorder(t)
    ensures Along(t, [true] + dr) == [t.data] + Along(t.right, dr)
  {
    var dirs := [true] + dr;
    assert dirs[1..] == dr;
    PreIndexLocates(t.right, dr);
    assert Preorder(t) == ([t.data] + Preorder(t.left)) + Preorder(t.right);
    assert Preorder(t)[..PreIndex(t, dirs)] == ([t.data] + Preorder(t.left)) + Preorder(t.right)[..PreIndex(t.right, dr)];
  }

  lemma {:induction false} NoMatch<T>(t: Tree<T>, item: T)
    requires t.Node? && t.data != item && item !in Preorder(t.left) && item !in Preorder(t.right)
    ensures item !in Preorder(t)
  {
  }

  /** BTree.java:196-201: the ancestors of the first node holding `item`,
      root first; no such node throws `IllegalArgumentException`. */
  method Ancestors<T(==)>(item: T, t: Tree<T>) returns (r: Outcome<seq<T>>)
    ensures r.Thrown? <==> item !in Preorder(t)
    ensures r.Thrown? ==> r.error == IllegalArgument
    ensures r.Ok? ==> exists dirs :: FirstMatch(t, dirs, item) && r.value == Along(t, dirs)
  {
    var found, path := AncestorsFrom(item, t, []);
    if !found {
      return Thrown(IllegalArgument);
    }
    r := Ok(path);
    ghost var dirs :| FirstMatch(t, dirs, item) && path == Along(t, dirs) + [];
    assert Along(t, dirs) + [] == Along(t, dirs);
  }
}
