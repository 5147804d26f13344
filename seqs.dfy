/**
 * Two facts about sequence concatenation, stated once so that proofs over
 * sequences of strings and rows can cite them instead of re-deriving
 * sequence equality element by element.
 */
module Seqs {

  lemma AppendAssociates<T>(a: seq<T>, b: seq<T>, c: seq<T>)
    ensures a + b + c == a + (b + c)
  {
  }

  lemma AppendEmpty<T>(a: seq<T>)
    ensures a + [] == a
  {
  }
}
