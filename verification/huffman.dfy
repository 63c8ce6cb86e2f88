/** `huffman.HuffmanTree`: a Huffman code tree over characters, the frequency
    table it is built from, and the encoder and decoder that use it. A
    `HuffmanTree` object is represented by its root, which never changes after
    construction. */
module Huffman {
  import opened Java
  import opened Seqs

  /** HuffmanTree.java:27-78: a leaf holds a character and its frequency; an
      internal node holds the frequency of everything below it. */
  datatype Node =
    | Leaf(data: char, frequency: int)
    | Internal(frequency: int, left: Node, right: Node)

  /** HuffmanTree.java:83: one counter per "extended ASCII" character. */
  const CODEX_SIZE: int := 256

  /** HuffmanTree.java:69-73: the internal node over `l` and `r`; its
      frequency is the Java `int` sum of theirs. */
  function Merge(l: Node, r: Node): (n: Node)
    ensures n.Internal? && n.left == l && n.right == r && Weighted(n) == (Weighted(l) && Weighted(r))
    ensures IsInt(l.frequency + r.frequency) ==> n.frequency == l.frequency + r.frequency
  {
    Internal(AddInt(l.frequency, r.frequency), l, r)
  }

  /** Every internal node carries the sum its constructor computed. */
  predicate Weighted(n: Node)
  {
    match n
    case Leaf(_, _) => true
    case Internal(f, l, r) => f == AddInt(l.frequency, r.frequency) && Weighted(l) && Weighted(r)
  }

  /** The characters at the leaves. */
  function Chars(n: Node): set<char>
  {
    match n
    case Leaf(c, _) => {c}
    case Internal(_, l, r) => Chars(l) + Chars(r)
  }

  // ---------------------------------------------------------------------
  // Frequencies and construction

  /** HuffmanTree.java:98-104: counts each character of `s` in a 256-entry
      table; a character from 256 on indexes past the table and throws. */
  method Frequency(s: seq<char>) returns (r: Outcome<seq<int>>)
    ensures r.Thrown? <==> exists k :: 0 <= k < |s| && s[k] as int >= CODEX_SIZE
    ensures r.Thrown? ==> r.error == IndexOutOfBounds
    ensures r.Ok? ==> |r.value| == CODEX_SIZE
    ensures r.Ok? ==> forall c :: 0 <= c < CODEX_SIZE ==> r.value[c] == multiset(s)[c as char]
  {
    var freq := new int[CODEX_SIZE](_ => 0);
    for k := 0 to |s|
      invariant forall j :: 0 <= j < k ==> s[j] as int < CODEX_SIZE
      invariant forall c :: 0 <= c < CODEX_SIZE ==> freq[c] == multiset(s[..k])[c as char]
    {
      if s[k] as int >= CODEX_SIZE {
        return Thrown(IndexOutOfBounds);
      }
      var c := s[k] as int;
      freq[c] := freq[c] + 1;
      assert s[..k + 1] == s[..k] + [s[k]];
    }
    assert s[..|s|] == s;
    return Ok(freq[..]);
  }

  /** The number of characters of `s` whose code is below `bound`. */
  function Below(s: seq<char>, bound: int): nat
  {
    if s == [] then 0 else (if s[0] as int < bound then 1 else 0) + Below(s[1..], bound)
  }

  /** Raising the bound by one adds the occurrences of that character. */
  lemma {:induction false} BelowStep(s: seq<char>, c: int)
    requires 0 <= c < CODEX_SIZE
    ensures Below(s, c + 1) == Below(s, c) + multiset(s)[c as char]
  {
    if s != [] {
      BelowStep(s[1..], c);
      assert s == [s[0]] + s[1..];
      assert multiset(s) == multiset{s[0]} + multiset(s[1..]);
    }
  }

  lemma {:induction false} BelowNone(s: seq<char>)
    ensures Below(s, 0) == 0
  {
    if s != [] {
      BelowNone(s[1..]);
    }
  }

  /** A bound above every character counts all of them. */
  lemma {:induction false} BelowAll(s: seq<char>, bound: int)
    requires forall k :: 0 <= k < |s| ==> s[k] as int < bound
    ensures Below(s, bound) == |s|
  {
    if s != [] {
      BelowAll(s[1..], bound);
    }
  }

  /** The sum of the frequencies of a forest. */
  function Total(f: seq<Node>): int
  {
    if f == [] then 0 else Total(f[..|f| - 1]) + f[|f| - 1].frequency
  }

  /** The characters of a forest. */
  function CharsF(f: seq<Node>): set<char>
  {
    if f == [] then {} else CharsF(f[..|f| - 1]) + Chars(f[|f| - 1])
  }

  /** Taking the tree at `i` out of a forest. */
  lemma {:induction false} Removed(f: seq<Node>, i: int)
    requires 0 <= i < |f|
    ensures Total(f) == Total(f[..i] + f[i + 1..]) + f[i].frequency
    ensures CharsF(f) == CharsF(f[..i] + f[i + 1..]) + Chars(f[i])
    decreases |f|
  {
    var g := f[..i] + f[i + 1..];
    if i == |f| - 1 {
      assert g == f[..|f| - 1];
    } else {
      var init := f[..|f| - 1];
      Removed(init, i);
      assert g[..|g| - 1] == init[..i] + init[i + 1..];
      assert g[|g| - 1] == f[|f| - 1];
    }
  }

  /** Frequencies that are never negative add up to no less than any one. */
  lemma {:induction false} TotalBounds(f: seq<Node>)
    requires forall k :: 0 <= k < |f| ==> 0 <= f[k].frequency
    ensures 0 <= Total(f)
    ensures f != [] && (forall k :: 0 <= k < |f| ==> 0 < f[k].frequency) ==> 0 < Total(f)
  {
    if f != [] {
      TotalBounds(f[..|f| - 1]);
    }
  }

  /** HuffmanTree.java:112-150 (with the constructor, 88-90): one leaf per
      character that occurs, in character order, then the two trees of least
      frequency merged until one is left. The empty string leaves nothing to
      merge and throws. */
  method Build(s: seq<char>) returns (r: Outcome<Node>)
    requires |s| <= INT_MAX
    ensures r.Ok? <==> s != [] && forall k :: 0 <= k < |s| ==> s[k] as int < CODEX_SIZE
    ensures r.Thrown? && s == [] ==> r.error == NullPointer
    ensures r.Thrown? && s != [] ==> r.error == IndexOutOfBounds
    ensures r.Ok? ==> r.value.frequency == |s| && Weighted(r.value)
    ensures r.Ok? ==> Chars(r.value) == set c | c in s
    ensures r.Ok? && r.value.Leaf? ==> forall k :: 0 <= k < |s| ==> s[k] == s[0]
  {
    var counted := Frequency(s);
    if counted.Thrown? {
      return Thrown(counted.error);
    }
    var heap := Leaves(counted.value, s);
    TotalBounds(heap);
    if heap == [] {
      return Thrown(NullPointer);
    }
    var root := MergeAll(heap);
    if root.Leaf? {
      forall k | 0 <= k < |s| ensures s[k] == s[0] {
        assert s[k] in s && s[0] in s;
        assert s[k] in Chars(root) && s[0] in Chars(root);
        assert Chars(root) == {root.data};
      }
    }
    return Ok(root);
  }

  /** HuffmanTree.java:123-129: a leaf for every character with a positive
      count, in character order. */
  method Leaves(freq: seq<int>, ghost s: seq<char>) returns (heap: seq<Node>)
    requires |freq| == CODEX_SIZE
    requires forall c :: 0 <= c < CODEX_SIZE ==> freq[c] == multiset(s)[c as char]
    requires forall k :: 0 <= k < |s| ==> s[k] as int < CODEX_SIZE
    ensures forall k :: 0 <= k < |heap| ==> heap[k].Leaf? && 0 < heap[k].frequency
    ensures Total(heap) == |s|
    ensures CharsF(heap) == set c | c in s
  {
    heap := [];
    BelowNone(s);
    for i := 0 to CODEX_SIZE
      invariant forall k :: 0 <= k < |heap| ==> heap[k].Leaf? && 0 < heap[k].frequency
      invariant Total(heap) == Below(s, i)
      invariant CharsF(heap) == set c | c in s && c as int < i
    {
      BelowStep(s, i);
      if freq[i] > 0 {
        heap := heap + [Leaf(i as char, freq[i])];
      }
      assert (set c | c in s && c as int < i + 1) ==
        (set c | c in s && c as int < i) + (if freq[i] > 0 then {i as char} else {});
    }
    BelowAll(s, CODEX_SIZE);
  }

  /** HuffmanTree.java:141-149: polls the two trees of least frequency,
      merges them and adds the result back, until one tree is left. */
  method MergeAll(heap0: seq<Node>) returns (root: Node)
    requires heap0 != [] && Total(heap0) <= INT_MAX
    requires forall k :: 0 <= k < |heap0| ==> 0 < heap0[k].frequency && Weighted(heap0[k])
    ensures root.frequency == Total(heap0) && Weighted(root)
    ensures Chars(root) == CharsF(heap0)
  {
    var heap := heap0;
    while |heap| > 1
      invariant 1 <= |heap|
      invariant forall k :: 0 <= k < |heap| ==> 0 < heap[k].frequency && Weighted(heap[k])
      invariant Total(heap) == Total(heap0)
      invariant CharsF(heap) == CharsF(heap0)
      decreases |heap|
    {
      heap := MergeLeast(heap);
    }
    assert heap[..0] == [];
    root := heap[0];
  }

  /** HuffmanTree.java:142-145, one round: the two trees of least frequency
      are taken out and their merge is added back. */
  method MergeLeast(heap: seq<Node>) returns (after: seq<Node>)
    requires |heap| > 1 && Total(heap) <= INT_MAX
    requires forall k :: 0 <= k < |heap| ==> 0 < heap[k].frequency && Weighted(heap[k])
    ensures |after| == |heap| - 1
    ensures forall k :: 0 <= k < |after| ==> 0 < after[k].frequency && Weighted(after[k])
    ensures Total(after) == Total(heap) && CharsF(after) == CharsF(heap)
  {
    var i := PollMin(heap);
    var left := heap[i];
    var rest := heap[..i] + heap[i + 1..];
    Removed(heap, i);
    var j := PollMin(rest);
    var right := rest[j];
    var others := rest[..j] + rest[j + 1..];
    Removed(rest, j);
    TotalBounds(others);
    after := others + [Merge(left, right)];
    assert after[..|after| - 1] == others;
  }

  /** `PriorityQueue.poll` on the forest: the position of a tree of least
      frequency (the first one, where the library leaves ties open). */
  method PollMin(heap: seq<Node>) returns (i: int)
    requires heap != []
    ensures 0 <= i < |heap|
    ensures forall k :: 0 <= k < |heap| ==> heap[i].frequency <= heap[k].frequency
  {
    i := 0;
    for k := 1 to |heap|
      invariant 0 <= i < |heap|
      invariant forall j :: 0 <= j < k ==> heap[i].frequency <= heap[j].frequency
    {
      if heap[k].frequency < heap[i].frequency {
        i := k;
      }
    }
  }

  // ---------------------------------------------------------------------
  // Rendering bits

  /** HuffmanTree.java:160-165: `true` becomes '1' and `false` '0', one
      character per bit, in order. */
  method BitsToString(encoding: seq<bool>) returns (s: seq<char>)
    ensures |s| == |encoding|
    ensures forall k :: 0 <= k < |s| ==> s[k] == if encoding[k] then '1' else '0'
  {
    s := [];
    for k := 0 to |encoding|
      invariant |s| == k
      invariant forall j :: 0 <= j < k ==> s[j] == if encoding[j] then '1' else '0'
    {
      s := s + [if encoding[k] then '1' else '0'];
    }
  }

  // ---------------------------------------------------------------------
  // Encoding

  /** The code word `dfs` finds for `c`: the path (`false` = left) to the
      first leaf holding `c`, the left subtree searched before the right. */
  function Code(n: Node, c: char): Option<seq<bool>>
  {
    match n
    case Leaf(d, _) => if d == c then Some([]) else None
    case Internal(_, l, r) =>
      if Code(l, c).Some? then Some([false] + Code(l, c).value)
      else if Code(r, c).Some? then Some([true] + Code(r, c).value)
      else None
  }

  /** A character has a code word exactly when some leaf holds it. */
  lemma {:induction false} CodeExists(n: Node, c: char)
    ensures Code(n, c).Some? <==> c in Chars(n)
  {
    match n
    case Leaf(_, _) =>
    case Internal(_, l, r) =>
      CodeExists(l, c);
      CodeExists(r, c);
  }

  /** HuffmanTree.java:243-256: searches for a leaf holding `c` and, on the
      way back from it, prepends each turn taken to the shared `path`; a
      failed search leaves `path` alone. */
  method Dfs(curr: Node, path: seq<bool>, c: char) returns (found: bool, after: seq<bool>)
    ensures found <==> c in Chars(curr)
    ensures found ==> Code(curr, c).Some? && after == Code(curr, c).value + path
    ensures !found ==> after == path
  {
    CodeExists(curr, c);
    if curr.Leaf? {
      return curr.data == c, path;
    }
    CodeExists(curr.left, c);
    CodeExists(curr.right, c);
    found, after := Dfs(curr.left, path, c);
    if found {
      Associative([false], Code(curr.left, c).value, path);
      return true, [false] + after;
    }
    found, after := Dfs(curr.right, path, c);
    if found {
      Associative([true], Code(curr.right, c).value, path);
      return true, [true] + after;
    }
    return false, path;
  }

  /** What `encode` returns: the code words of the characters, in order; a
      character without a leaf throws `IllegalArgumentException`. */
  function Encoded(root: Node, s: seq<char>): Outcome<seq<bool>>
  {
    if s == [] then Ok([])
    else if Code(root, s[0]).None? || Encoded(root, s[1..]).Thrown? then Thrown(IllegalArgument)
    else Ok(Code(root, s[0]).value + Encoded(root, s[1..]).value)
  }

  /** Encoding succeeds exactly when every character has a leaf, and fails
      only with `IllegalArgumentException`. */
  lemma {:induction false} EncodedOk(root: Node, s: seq<char>)
    ensures Encoded(root, s).Ok? <==> forall k :: 0 <= k < |s| ==> s[k] in Chars(root)
    ensures Encoded(root, s).Thrown? ==> Encoded(root, s).error == IllegalArgument
  {
    if s != [] {
      EncodedOk(root, s[1..]);
      CodeExists(root, s[0]);
      if Encoded(root, s).Ok? {
        forall k | 0 <= k < |s| ensures s[k] in Chars(root) {
          if k > 0 {
            assert s[k] == s[1..][k - 1];
          }
        }
      }
      if forall k :: 0 <= k < |s| ==> s[k] in Chars(root) {
        assert forall k :: 0 <= k < |s[1..]| ==> s[1..][k] == s[k + 1];
      }
    }
  }

  /** Encoding one more character appends its code word. */
  lemma {:induction false} EncodedSnoc(root: Node, s: seq<char>, c: char)
    requires Encoded(root, s).Ok? && Code(root, c).Some?
    ensures Encoded(root, s + [c]) == Ok(Encoded(root, s).value + Code(root, c).value)
  {
    if s == [] {
      var p, e: seq<bool> := Code(root, c).value, [];
      assert Encoded(root, s) == Ok(e);
      assert s + [c] == [c] && [c][0] == c && [c][1..] == [];
      assert Encoded(root, [c]) == Ok(p + e);
      assert p + e == e + p;
    } else {
      assert (s + [c])[0] == s[0] && (s + [c])[1..] == s[1..] + [c];
      EncodedSnoc(root, s[1..], c);
      Associative(Code(root, s[0]).value, Encoded(root, s[1..]).value, Code(root, c).value);
    }
  }

  /** HuffmanTree.java:264-274: each character's path from a fresh search,
      appended in turn; the first character without a leaf throws. */
  method Encode(root: Node, inputText: seq<char>) returns (r: Outcome<seq<bool>>)
    ensures r == Encoded(root, inputText)
  {
    var encoding: seq<bool> := [];
    for i := 0 to |inputText|
      invariant Encoded(root, inputText[..i]) == Ok(encoding)
    {
      var found, temp := Dfs(root, [], inputText[i]);
      if !found {
        EncodedOk(root, inputText);
        return Thrown(IllegalArgument);
      }
      assert inputText[..i + 1] == inputText[..i] + [inputText[i]];
      EncodedSnoc(root, inputText[..i], inputText[i]);
      assert temp == Code(root, inputText[i]).value;
      encoding := encoding + temp;
    }
    assert inputText[..|inputText|] == inputText;
    return Ok(encoding);
  }

  /** HuffmanTree.java:282-298: `encode` with each character's path cached in
      a map after its first search; it returns and throws exactly as `encode`
      does. */
  method EfficientEncode(root: Node, inputText: seq<char>) returns (r: Outcome<seq<bool>>)
    ensures r == Encoded(root, inputText)
  {
    var h: map<char, seq<bool>> := map[];
    var encoding: seq<bool> := [];
    for i := 0 to |inputText|
      invariant Encoded(root, inputText[..i]) == Ok(encoding)
      invariant forall c :: c in h ==> Code(root, c) == Some(h[c])
    {
      var c := inputText[i];
      var path: seq<bool>;
      if c in h {
        path := h[c];
      } else {
        var found;
        found, path := Dfs(root, [], c);
        if !found {
          EncodedOk(root, inputText);
          return Thrown(IllegalArgument);
        }
        assert path == Code(root, c).value;
        h := h[c := path];
      }
      assert inputText[..i + 1] == inputText[..i] + [c];
      EncodedSnoc(root, inputText[..i], c);
      encoding := encoding + path;
    }
    assert inputText[..|inputText|] == inputText;
    return Ok(encoding);
  }

  // ---------------------------------------------------------------------
  // Decoding

  /** Where `decode`'s walk over `bits` from `curr` gets to: the characters
      emitted on the way and the node it stops at. Each bit moves an internal
      node to a child (`true` = right); a leaf reached emits its character
      and the walk restarts at `root`. */
  function Walk(root: Node, curr: Node, bits: seq<bool>): (seq<char>, Node)
    decreases |bits|
  {
    if bits == [] then ([], curr)
    else
      var next := if curr.Internal? then (if bits[0] then curr.right else curr.left) else curr;
      if next.Leaf? then
        var w := Walk(root, root, bits[1..]);
        ([next.data] + w.0, w.1)
      else Walk(root, next, bits[1..])
  }

  /** What `decode` returns: the characters emitted, or
      `IllegalArgumentException` when the walk stops away from the root,
      part-way through a code word. */
  function Decoded(root: Node, coding: seq<bool>): Outcome<seq<char>>
  {
    var w := Walk(root, root, coding);
    if w.1 != root then Thrown(IllegalArgument) else Ok(w.0)
  }

  /** HuffmanTree.java:212-234: walks from the root, appending the character
      of each leaf reached and restarting at the root; ending anywhere but the
      root throws. */
  method Decode(root: Node, coding: seq<bool>) returns (r: Outcome<seq<char>>)
    ensures r == Decoded(root, coding)
    ensures coding == [] ==> r == Ok([])
  {
    var curr := root;
    var b: seq<char> := [];
    for i := 0 to |coding|
      invariant Walk(root, root, coding).0 == b + Walk(root, curr, coding[i..]).0
      invariant Walk(root, root, coding).1 == Walk(root, curr, coding[i..]).1
    {
      assert coding[i..][0] == coding[i] && coding[i..][1..] == coding[i + 1..];
      ghost var before := curr;
      if curr.Internal? {
        if coding[i] {
          curr := curr.right;
        } else {
          curr := curr.left;
        }
      }
      if curr.Leaf? {
        Associative(b, [curr.data], Walk(root, root, coding[i + 1..]).0);
        b := b + [curr.data];
        curr := root;
      }
    }
    assert coding[|coding|..] == [];
    assert b + [] == b;
    if curr != root {
      return Thrown(IllegalArgument);
    }
    return Ok(b);
  }

  /** Following `c`'s code word from an internal node emits `c` and restarts
      at the root, whatever bits come next. */
  lemma {:induction false} WalkCode(root: Node, curr: Node, c: char, rest: seq<bool>)
    requires curr.Internal? && Code(curr, c).Some?
    ensures Walk(root, curr, Code(curr, c).value + rest) == ([c] + Walk(root, root, rest).0, Walk(root, root, rest).1)
  {
    var bits := Code(curr, c).value + rest;
    var b := Code(curr.left, c).None?;
    var child := if b then curr.right else curr.left;
    var q := Code(child, c).value;
    assert Code(curr, c).value == [b] + q;
    assert bits[0] == b && bits[1..] == q + rest;
    if child.Leaf? {
      assert q == [] && child.data == c;
    } else {
      WalkCode(root, child, c, rest);
    }
  }

  /** Decoding the encoding of `s` followed by more bits emits `s` and then
      whatever the further bits do. */
  lemma {:induction false} WalkEncoded(root: Node, s: seq<char>, rest: seq<bool>)
    requires root.Internal? && Encoded(root, s).Ok?
    ensures Walk(root, root, Encoded(root, s).value + rest) == (s + Walk(root, root, rest).0, Walk(root, root, rest).1)
  {
    var w := Walk(root, root, rest);
    if s == [] {
      var e: seq<bool> := [];
      assert Encoded(root, s) == Ok(e);
      assert e + rest == rest && s + w.0 == w.0;
    } else {
      var p, tail := Code(root, s[0]).value, Encoded(root, s[1..]).value;
      assert Encoded(root, s).value + rest == p + (tail + rest) by {
        assert Encoded(root, s).value == p + tail;
        Associative(p, tail, rest);
      }
      WalkCode(root, root, s[0], tail + rest);
      WalkEncoded(root, s[1..], rest);
      var v := Walk(root, root, tail + rest);
      assert v.0 == s[1..] + w.0 && v.1 == w.1;
      assert s == [s[0]] + s[1..];
      Associative([s[0]], s[1..], w.0);
    }
  }

  /** With an internal node at the root, decoding undoes encoding. */
  lemma DecodeEncode(root: Node, s: seq<char>)
    requires root.Internal? && Encoded(root, s).Ok?
    ensures Decoded(root, Encoded(root, s).value) == Ok(s)
  {
    WalkEncoded(root, s, []);
    assert Encoded(root, s).value + [] == Encoded(root, s).value;
    assert s + [] == s;
  }

  function Size(n: Node): nat
  {
    match n
    case Leaf(_, _) => 1
    case Internal(_, l, r) => Size(l) + Size(r) + 1
  }

  /** Stopping part-way through `c`'s code word, after at least one bit,
      leaves the walk strictly inside the tree with nothing emitted. */
  lemma {:induction false} PartialWalk(root: Node, curr: Node, c: char, k: int)
    requires curr.Internal? && Code(curr, c).Some? && 0 < k < |Code(curr, c).value|
    ensures Walk(root, curr, Code(curr, c).value[..k]).0 == []
    ensures Size(Walk(root, curr, Code(curr, c).value[..k]).1) < Size(curr)
  {
    var p := Code(curr, c).value;
    var b := Code(curr.left, c).None?;
    var child := if b then curr.right else curr.left;
    var q := Code(child, c).value;
    assert p == [b] + q;
    assert p[..k][0] == b && p[..k][1..] == q[..k - 1];
    if k == 1 {
      assert q[..0] == [];
    } else {
      PartialWalk(root, child, c, k - 1);
    }
  }

  /** Bits that end part-way through a code word make `decode` throw. */
  lemma PartialCodeThrows(root: Node, s: seq<char>, c: char, k: int)
    requires root.Internal? && Encoded(root, s).Ok? && Code(root, c).Some?
    requires 0 < k < |Code(root, c).value|
    ensures Decoded(root, Encoded(root, s).value + Code(root, c).value[..k]) == Thrown(IllegalArgument)
  {
    WalkEncoded(root, s, Code(root, c).value[..k]);
    PartialWalk(root, root, c, k);
  }

  /** A tree of a single leaf gives every character the empty code word, so
      decoding cannot recover the text: the round trip needs an internal
      root. */
  lemma SingleLeafForgets(c: char)
    ensures Encoded(Leaf(c, 2), [c, c]).Ok? && Encoded(Leaf(c, 2), [c, c]).value == []
    ensures Decoded(Leaf(c, 2), []).Ok? && Decoded(Leaf(c, 2), []).value == []
  {
    var root, e: seq<bool> := Leaf(c, 2), [];
    assert Code(root, c) == Some(e);
    assert Encoded(root, []) == Ok(e);
    assert [c][0] == c && [c][1..] == [];
    assert Encoded(root, [c]) == Ok(e + e);
    assert [c, c][0] == c && [c, c][1..] == [c];
    assert Encoded(root, [c, c]) == Ok(e + (e + e));
  }
}
