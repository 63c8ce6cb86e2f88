/** `notes.tables.HashtableBST`: a hash table whose buckets are binary search
    trees. The buckets live in an `ArrayList`, modelled as a sequence of
    (possibly null) roots; keys are integers ordered as `compareTo` orders
    them, and `hashCode` is a parameter of the table. The model follows the
    code as written: the constructor leaves the list empty, so `find`
    divides by zero, and `put` inserts into the list (`add(index, …)`)
    instead of replacing a bucket. */
module BstHashing {
  import opened Java
  import opened Hashing

  /** HashtableBST.java:11: the initial capacity the constructor asks for;
      an `ArrayList`'s capacity is not its size. */
  const START_CAPACITY := 101

  /** HashtableBST.java:13 (0.74), in hundredths. */
  const LOAD_THRESHOLD := 74

  /** What a bucket tree holds. */
  datatype Tree<V> = Leaf | Branch(left: Tree<V>, key: int, value: Option<V>, right: Tree<V>)

  function Keys<V>(t: Tree<V>): set<int>
  {
    match t
    case Leaf => {}
    case Branch(l, k, _, r) => Keys(l) + {k} + Keys(r)
  }

  function Size<V>(t: Tree<V>): nat
  {
    match t
    case Leaf => 0
    case Branch(l, _, _, r) => Size(l) + 1 + Size(r)
  }

  /** Search-tree order: smaller keys to the left, larger to the right. */
  predicate Ordered<V>(t: Tree<V>)
  {
    match t
    case Leaf => true
    case Branch(l, k, _, r) =>
      (forall x :: x in Keys(l) ==> x < k) && (forall x :: x in Keys(r) ==> k < x) &&
      Ordered(l) && Ordered(r)
  }

  /** The key-value pairs of a tree; where a key occurs twice the one nearer
      the root wins (in an ordered tree no key does). */
  function Mapping<V>(t: Tree<V>): map<int, Option<V>>
  {
    match t
    case Leaf => map[]
    case Branch(l, k, v, r) => Mapping(l) + Mapping(r) + map[k := v]
  }

  lemma {:induction false} MappingKeys<V>(t: Tree<V>)
    ensures Mapping(t).Keys == Keys(t)
  {
    match t
    case Leaf =>
    case Branch(l, _, _, r) =>
      MappingKeys(l);
      MappingKeys(r);
  }

  /** HashtableBST.java:47-51: the descent `get` makes, by `compareTo`, and
      the value of the node it stops at, or null. */
  function Lookup<V>(t: Tree<V>, key: int): Option<V>
  {
    match t
    case Leaf => None
    case Branch(l, k, v, r) =>
      if k == key then v else if k < key then Lookup(r, key) else Lookup(l, key)
  }

  /** In an ordered tree the descent finds the key's value, and null for a
      key the tree does not hold. */
  lemma {:induction false} LookupMapping<V>(t: Tree<V>, key: int)
    requires Ordered(t)
    ensures Lookup(t, key) == if key in Mapping(t) then Mapping(t)[key] else None
  {
    match t
    case Leaf =>
    case Branch(l, k, v, r) =>
      MappingKeys(l);
      MappingKeys(r);
      if k < key {
        LookupMapping(r, key);
      } else if key < k {
        LookupMapping(l, key);
      }
  }

  /** HashtableBST.java:54-68, on values: the tree `chain` leaves. A null
      tree becomes one node; a node holding `key` takes the new value; any
      other descends by `compareTo`. */
  function Insert<V>(t: Tree<V>, key: int, value: Option<V>): (r: Tree<V>)
    ensures Keys(r) == Keys(t) + {key}
    ensures Ordered(t) ==> Ordered(r) && Size(r) == Size(t) + (if key in Keys(t) then 0 else 1)
  {
    match t
    case Leaf => Branch(Leaf, key, value, Leaf)
    case Branch(l, k, v, r) =>
      if k == key then Branch(l, k, value, r)
      else if k < key then Branch(l, k, v, Insert(r, key, value))
      else Branch(Insert(l, key, value), k, v, r)
  }

  /** In an ordered bucket, `chain` stores `key ↦ value` and leaves every
      other key's value alone. */
  lemma {:induction false} InsertLookup<V>(t: Tree<V>, key: int, value: Option<V>, other: int)
    requires Ordered(t)
    ensures Lookup(Insert(t, key, value), other) == if other == key then value else Lookup(t, other)
  {
    match t
    case Leaf =>
    case Branch(l, k, v, r) =>
      if k < key {
        InsertLookup(r, key, value, other);
      } else if key < k {
        InsertLookup(l, key, value, other);
      }
  }

  /** The same on the content mappings: a search for any key after `chain`
      sees `Mapping(t)[key := value]`. */
  lemma ChainThenLookup<V>(t: Tree<V>, key: int, value: Option<V>, other: int)
    requires Ordered(t)
    ensures Lookup(Insert(t, key, value), other) ==
      var m := Mapping(t)[key := value]; if other in m then m[other] else None
  {
    InsertLookup(t, key, value, other);
    LookupMapping(t, other);
  }

  /** HashtableBST.java:38-41: the bucket index, or the
      `ArithmeticException` of `% 0` on an empty list. */
  function Index(hash: int, size: int): (r: Outcome<int>)
    requires 0 <= size
    ensures r.Thrown? <==> size == 0
    ensures r.Thrown? ==> r.error == Arithmetic
    ensures r.Ok? ==> 0 <= r.value < size && r.value == hash % size
  {
    if size == 0 then Thrown(Arithmetic) else Ok(Home(hash, size))
  }

  /** `ArrayList.add(index, x)`: `x` goes in at `index` and the entries from
      there on move up by one. */
  function ListAdd<T>(s: seq<T>, index: int, x: T): (r: seq<T>)
    requires 0 <= index <= |s|
    ensures |r| == |s| + 1 && r[index] == x
    ensures forall j :: 0 <= j < index ==> r[j] == s[j]
    ensures forall j :: index <= j < |s| ==> r[j + 1] == s[j]
  {
    s[..index] + [x] + s[index..]
  }

  /** The list after `add` holds the entries it held before and the new one. */
  lemma ListAddMembers<T>(s: seq<T>, index: int, x: T)
    requires 0 <= index <= |s|
    ensures forall y :: y in ListAdd(s, index, x) <==> y in s || y == x
  {
    assert s == s[..index] + s[index..];
  }

  /** HashtableBST.java:17-32: a bucket node. The key is never reassigned;
      `chain` rewrites the value and the links. */
  class Node<V> {
    const key: int
    var value: Option<V>
    var left: Node?<V>
    var right: Node?<V>
    /** The tree this node is the root of. */
    ghost var Contents: Tree<V>
    ghost var Repr: set<object>

    ghost predicate Valid()
      reads this, Repr
      decreases Repr
    {
      this in Repr &&
      (left != null ==> left in Repr && left.Repr <= Repr && this !in left.Repr && left.Valid()) &&
      (right != null ==> right in Repr && right.Repr <= Repr && this !in right.Repr && right.Valid()) &&
      (left != null && right != null ==> left.Repr !! right.Repr) &&
      Contents == Branch(Of(left), key, value, Of(right))
    }

    /** HashtableBST.java:23-26. */
    constructor (key: int, value: Option<V>)
      ensures Valid() && fresh(Repr)
      ensures Contents == Branch(Leaf, key, value, Leaf)
    {
      this.key := key;
      this.value := value;
      left := null;
      right := null;
      Contents := Branch(Leaf, key, value, Leaf);
      Repr := {this};
    }
  }

  /** The tree a possibly null root stands for. */
  ghost function Of<V>(n: Node?<V>): Tree<V>
    reads n
  {
    if n == null then Leaf else n.Contents
  }

  /** HashtableBST.java:54-68: stores `key ↦ value` in the tree rooted at
      `curr`, in place, and returns the root: `curr` itself, or a new node
      when `curr` is null. */
  method Chain<V>(curr: Node?<V>, key: int, value: Option<V>) returns (r: Node<V>)
    requires curr != null ==> curr.Valid()
    modifies if curr != null then curr.Repr else {}
    ensures r.Valid() && r.Contents == Insert(old(Of(curr)), key, value)
    ensures curr == null ==> fresh(r.Repr)
    ensures curr != null ==> r == curr && fresh(r.Repr - old(curr.Repr))
    decreases if curr != null then curr.Repr else {}, 1
  {
    if curr == null {
      r := new Node(key, value);
      return;
    }
    if curr.key == key {
      curr.value := value;
      curr.Contents := Branch(Of(curr.left), key, value, Of(curr.right));
    } else if curr.key < key {
      ChainRight(curr, key, value);
    } else {
      ChainLeft(curr, key, value);
    }
    return curr;
  }

  /** HashtableBST.java:62-63: `key` belongs to the right of `curr`. */
  method ChainRight<V>(curr: Node<V>, key: int, value: Option<V>)
    requires curr.Valid() && curr.key < key
    modifies curr.Repr
    ensures curr.Valid() && curr.Contents == Insert(old(curr.Contents), key, value)
    ensures fresh(curr.Repr - old(curr.Repr))
    decreases curr.Repr, 0
  {
    var n := Chain(curr.right, key, value);
    curr.right := n;
    curr.Repr := curr.Repr + n.Repr;
    curr.Contents := Branch(Of(curr.left), curr.key, curr.value, n.Contents);
  }

  /** HashtableBST.java:64-65: `key` belongs to the left of `curr`. */
  method ChainLeft<V>(curr: Node<V>, key: int, value: Option<V>)
    requires curr.Valid() && key < curr.key
    modifies curr.Repr
    ensures curr.Valid() && curr.Contents == Insert(old(curr.Contents), key, value)
    ensures fresh(curr.Repr - old(curr.Repr))
    decreases curr.Repr, 0
  {
    var n := Chain(curr.left, key, value);
    curr.left := n;
    curr.Repr := curr.Repr + n.Repr;
    curr.Contents := Branch(n.Contents, curr.key, curr.value, Of(curr.right));
  }

  class HashtableBST<V> {
    /** The `ArrayList` of bucket roots. */
    var table: seq<Node?<V>>
    var numKeys: int
    var numDeletes: int
    /** The keys' `hashCode`. */
    const hash: int -> int
    ghost var Repr: set<object>

    /** Every bucket is a well-formed ordered tree inside `Repr`; two
        buckets are the same root or share no node (`put` can list one
        root twice). */
    ghost predicate Valid()
      reads this, Repr
    {
      this in Repr &&
      (forall n: Node<V> :: n in table ==>
        n in Repr && n.Repr <= Repr && this !in n.Repr && n.Valid() && Ordered(n.Contents)) &&
      (forall m: Node<V>, n: Node<V> :: m in table && n in table && m != n ==> m.Repr !! n.Repr)
    }

    /** The bucket roots. */
    ghost function Roots(): set<Node<V>>
      reads this
    {
      set n: Node<V> | n in table
    }

    /** HashtableBST.java:34-36: an empty list (with room for 101). */
    constructor (hash: int -> int)
      ensures Valid() && fresh(Repr)
      ensures table == [] && numKeys == 0 && numDeletes == 0 && this.hash == hash
    {
      table := [];
      numKeys := 0;
      numDeletes := 0;
      this.hash := hash;
      Repr := {this};
    }

    /** HashtableBST.java:38-41. */
    method Find(key: int) returns (r: Outcome<int>)
      ensures r == Index(hash(key), |table|)
    {
      if |table| == 0 {
        // `%` by zero
        return Thrown(Arithmetic);
      }
      return Ok(Home(hash(key), |table|));
    }

    /** HashtableBST.java:43-52: the value under `key` in its bucket, or
        null; on an empty list `find` throws. */
    method Get(key: int) returns (r: Outcome<Option<V>>)
      requires Valid()
      ensures |table| == 0 ==> r == Thrown(Arithmetic)
      ensures |table| > 0 ==> r == Ok(Lookup(Of(table[Home(hash(key), |table|)]), key))
    {
      var f := Find(key);
      if f.Thrown? {
        return Thrown(f.error);
      }
      var curr := table[f.value];
      while curr != null && curr.key != key
        invariant curr != null ==> curr.Valid()
        invariant Lookup(Of(curr), key) == Lookup(Of(table[f.value]), key)
        decreases if curr != null then curr.Repr else {}
      {
        curr := if curr.key < key then curr.right else curr.left;
      }
      return Ok(if curr == null then None else curr.value);
    }

    /** HashtableBST.java:70-84. On an empty list `find` throws at once.
        When the bucket is null, `numKeys` goes up; if the load check then
        fires, `rehash` leaves an empty list and `put` throws (in `rehash`
        or in the second `find`); otherwise a new one-node bucket is
        inserted into the list. When the bucket is not null, `chain`
        updates its tree in place and the same root is inserted again, so
        it sits in two consecutive buckets. Either way the value given is
        returned. */
    method Put(key: int, value: Option<V>) returns (r: Outcome<Option<V>>)
      requires Valid()
      modifies Repr
      ensures Valid() && fresh(Repr - old(Repr))
      ensures r.Ok? ==> r.value == value
      ensures |old(table)| == 0 ==>
        r == Thrown(Arithmetic) && table == old(table) && numKeys == old(numKeys) && numDeletes == old(numDeletes)
      ensures |old(table)| > 0 ==>
        var i := Home(hash(key), |old(table)|);
        && (old(table[i]) == null && old(numKeys) + 1 + old(numDeletes) >= |old(table)| ==>
              r == Thrown(Arithmetic) && table == [] && numKeys == 0 && numDeletes == 0)
        && (old(table[i]) == null && old(numKeys) + 1 + old(numDeletes) < |old(table)| ==>
              && r == Ok(value) && numKeys == old(numKeys) + 1 && numDeletes == old(numDeletes)
              && |table| == |old(table)| + 1 && table == ListAdd(old(table), i, table[i]) && fresh(table[i])
              && table[i] != null && table[i].Contents == Branch(Leaf, key, value, Leaf)
              && forall n :: n in old(Roots()) ==> n.Contents == old(n.Contents))
        && (old(table[i]) != null ==>
              && r == Ok(value) && numKeys == old(numKeys) && numDeletes == old(numDeletes)
              && table == ListAdd(old(table), i, old(table[i]))
              && old(table[i]).Contents == Insert(old(table[i].Contents), key, value)
              && forall n :: n in old(Roots()) && n != old(table[i]) ==> n.Contents == old(n.Contents))
      decreases if |table| == 0 then 0 else 2
    {
      var f := Find(key);
      if f.Thrown? {
        return Thrown(f.error);
      }
      var index := f.value;
      if table[index] == null {
        OverloadedIff(numKeys + 1 + numDeletes, |table|, LOAD_THRESHOLD);
        if Overloaded(numKeys + 1 + numDeletes, |table|, LOAD_THRESHOLD) {
          r := Grow(key);
        } else {
          r := AddBucket(index, key, value);
        }
      } else {
        r := ChainBucket(index, key, value);
      }
    }

    /** HashtableBST.java:73-76: `numKeys` goes up, the load check fires,
        `rehash` runs, and the list it leaves is empty: either `rehash`
        throws or the second `find` does. */
    method Grow(key: int) returns (r: Outcome<Option<V>>)
      requires Valid() && |table| > 0
      modifies Repr
      ensures Valid() && fresh(Repr - old(Repr))
      ensures r == Thrown(Arithmetic) && table == [] && numKeys == 0 && numDeletes == 0
      decreases 2, 0
    {
      numKeys := numKeys + 1;
      var g := Rehash();
      if g.Thrown? {
        return Thrown(g.error);
      }
      var f := Find(key);
      return Thrown(f.error);
    }

    /** HashtableBST.java:78: a one-node bucket inserted at `index`. */
    method AddBucket(index: int, key: int, value: Option<V>) returns (r: Outcome<Option<V>>)
      requires Valid() && 0 <= index < |table| && table[index] == null
      modifies this
      ensures Valid() && fresh(Repr - old(Repr))
      ensures r == Ok(value) && numKeys == old(numKeys) + 1 && numDeletes == old(numDeletes)
      ensures |table| == |old(table)| + 1 && table == ListAdd(old(table), index, table[index]) && fresh(table[index])
      ensures table[index] != null && table[index].Contents == Branch(Leaf, key, value, Leaf)
    {
      numKeys := numKeys + 1;
      var node := new Node(key, value);
      ListAddMembers(table, index, node);
      table := ListAdd(table, index, node);
      Repr := Repr + node.Repr;
      return Ok(value);
    }

    /** HashtableBST.java:80-81: `chain` on the bucket's root, which is
        then inserted at `index` once more. */
    method ChainBucket(index: int, key: int, value: Option<V>) returns (r: Outcome<Option<V>>)
      requires Valid() && 0 <= index < |table| && table[index] != null
      modifies Repr
      ensures Valid() && fresh(Repr - old(Repr))
      ensures r == Ok(value) && numKeys == old(numKeys) && numDeletes == old(numDeletes)
      ensures table == ListAdd(old(table), index, old(table[index]))
      ensures old(table[index]).Contents == Insert(old(table[index].Contents), key, value)
      ensures forall n :: n in old(Roots()) && n != old(table[index]) ==> n.Contents == old(n.Contents)
    {
      var root := table[index];
      var n := Chain(root, key, value);
      forall m: Node<V> | m in table && m != n
        ensures m.Valid() && m.Repr == old(m.Repr) && m.Repr !! n.Repr
      {
        assert m.Repr !! old(root.Repr);
      }
      ListAddMembers(table, index, n);
      table := ListAdd(table, index, n);
      Repr := Repr + n.Repr;
      return Ok(value);
    }

    /** HashtableBST.java:86-105. The new list is empty (its capacity is not
        its size), so the first `put` of the breadth-first walk over the
        first non-null bucket throws in `find`; `rehash` completes only
        when every old bucket is null. */
    method Rehash() returns (r: Outcome<()>)
      requires Valid()
      modifies Repr
      ensures Valid() && fresh(Repr - old(Repr))
      ensures table == [] && numKeys == 0 && numDeletes == 0
      ensures r.Thrown? <==> exists j :: 0 <= j < |old(table)| && old(table)[j] != null
      ensures r.Thrown? ==> r.error == Arithmetic
      decreases 1
    {
      var copy := table;
      table := [];
      numKeys := 0;
      numDeletes := 0;
      for i := 0 to |copy|
        invariant table == [] && numKeys == 0 && numDeletes == 0 && Valid() && fresh(Repr - old(Repr))
        invariant forall j :: 0 <= j < i ==> copy[j] == null
      {
        if copy[i] != null {
          // the walk polls the root first and puts it
          var res := Put(copy[i].key, copy[i].value);
          return Thrown(res.error);
        }
      }
      return Ok(());
    }
  }

  /** As written, a new table can hold nothing: its list is empty, so
      `put` and `get` both throw `ArithmeticException`, and the table stays
      empty. */
  method NewTableThrows<V>(hash: int -> int, key: int, value: Option<V>) returns (put: Outcome<Option<V>>, get: Outcome<Option<V>>)
    ensures put == Thrown(Arithmetic) && get == Thrown(Arithmetic)
  {
    var t := new HashtableBST<V>(hash);
    put := t.Put(key, value);
    get := t.Get(key);
  }
}
