/** What the two hash tables (`notes.tables.HashtableOpen` and
    `notes.tables.HashtableBST`) share: the slot a hash code selects, and the
    load check that decides when a table grows. */
module Hashing {
  import opened Java

  /** HashtableOpen.java:58-60 and HashtableBST.java:39-40: Java's remainder
      of the hash code by the table size, moved up by the size when it is
      negative. The result is a valid index, and it is exactly the
      mathematical (floored) modulus of the hash code. */
  function Home(hash: int, n: int): (i: int)
    requires 0 < n
    ensures 0 <= i < n
    ensures i == hash % n
  {
    var index := Rem(hash, n);
    ModulusUnique(hash, n, Div(hash, n) - (if index < 0 then 1 else 0), if index < 0 then index + n else index);
    if index < 0 then index + n else index
  }

  /** A remainder in `[0, n)` is the modulus. */
  lemma ModulusUnique(a: int, n: int, q: int, r: int)
    requires 0 < n && 0 <= r < n && a == n * q + r
    ensures r == a % n
  {
    var q', r' := a / n, a % n;
    assert n * (q' - q) == r - r';
    if q' > q {
      AtLeastOnce(n, q' - q);
    } else if q' < q {
      AtLeastOnce(n, q - q');
    }
  }

  lemma {:induction false} AtLeastOnce(n: int, d: int)
    requires 0 < n && 1 <= d
    ensures n * d >= n
    decreases d
  {
    if d > 1 {
      AtLeastOnce(n, d - 1);
      assert n * d == n * (d - 1) + n;
    }
  }

  /** HashtableOpen.java:78 (threshold 0.75) and HashtableBST.java:74
      (threshold 0.74): Java's integer quotient of the entry count by the
      table size, compared with the threshold, given here in hundredths. */
  predicate Overloaded(count: int, n: int, percent: int)
    requires 0 < n
  {
    100 * Div(count, n) > percent
  }

  /** Because the quotient is an integer, a threshold below 1 is exceeded
      exactly when the count has reached the table size. */
  lemma {:induction false} OverloadedIff(count: int, n: int, percent: int)
    requires 0 < n && 0 <= percent < 100
    ensures Overloaded(count, n, percent) <==> count >= n
  {
    var q := Div(count, n);
    if count >= n {
      assert count < (q + 1) * n;
    } else if 0 <= count {
      assert 0 <= q && q * n <= count;
    }
  }
}
