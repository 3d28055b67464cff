/**
 * Identities of sequence concatenation that the string-building proofs cite
 * by name, so that each step says which regrouping it relies on.
 */
module Sequences {

  /** Appending to an accumulator that already holds a prefix. */
  lemma Reassociate<T>(a: seq<T>, b: seq<T>, c: seq<T>)
    ensures a + b + c == a + (b + c)
  {
  }

  /** The head and tail of a concatenation whose first part is not empty. */
  lemma SplitHead<T>(a: seq<T>, b: seq<T>)
    requires a != []
    ensures (a + b)[0] == a[0] && (a + b)[1..] == a[1..] + b
  {
  }

  /** Moving the outer parts of a five-part concatenation into its middle. */
  lemma Regroup<T>(pre: seq<T>, front: seq<T>, core: seq<T>, back: seq<T>, post: seq<T>)
    ensures pre + (front + core + back) + post == (pre + front) + core + (back + post)
  {
  }
}
