/** Facts about sequences that several models lean on. */
module Seqs {

  /** Concatenation regrouped; stated once so that longer proofs need not
      rediscover it. */
  lemma Associative<T>(a: seq<T>, b: seq<T>, c: seq<T>)
    ensures a + (b + c) == (a + b) + c
  {
  }
}
