/** A fact about sequences that the proofs of both modules lean on. */
module Seqs {
  /** Concatenation is associative; stated on its own so that proofs about long chains of
      concatenations can use it without the solver searching for it. */
  lemma ConcatAssoc<T>(p: seq<T>, x: seq<T>, y: seq<T>)
    ensures p + (x + y) == (p + x) + y
  {
  }
}
