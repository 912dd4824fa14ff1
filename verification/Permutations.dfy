/** Sequences up to order, for the proofs by removing one element at a time. */
module Permutations {
  lemma RemovedOne<T>(b: seq<T>, k: nat)
    requires k < |b|
    ensures multiset(b[..k] + b[k + 1..]) == multiset(b) - multiset{b[k]}
  {
    assert b == b[..k] + ([b[k]] + b[k + 1..]);
    assert multiset(b) == multiset(b[..k]) + multiset([b[k]] + b[k + 1..]);
  }
}
