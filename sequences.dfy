/** A fact about sequences the proofs use to regroup concatenations. */
module Sequences {

  lemma AppendAssociative<T>(a: seq<T>, b: seq<T>, c: seq<T>)
    ensures a + b + c == a + (b + c)
  {
  }
}
