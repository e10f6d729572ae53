/**
 * Proof hints: facts about sequences and multisets that Dafny proves
 * unaided. They are stated once, for any element type, and called where a
 * proof about tables needs them, so that the solver establishes them without
 * looking at what the elements are (rows are maps, whose equality is costly
 * to reason about); asserted inline on rows, the same facts make the
 * surrounding proofs slow.
 */
module Seqs {

  /** Concatenation regroups freely. */
  lemma Associative<T>(x: seq<T>, y: seq<T>, z: seq<T>)
    ensures x + (y + z) == (x + y) + z
  {
  }

  /** Appending nothing changes nothing. */
  lemma AppendEmpty<T>(s: seq<T>)
    ensures s + [] == s
  {
  }

  /** Joining x with two empty sequences, in any position, gives x. */
  lemma OnlyOneNonEmpty<T>(x: seq<T>)
    ensures x + [] + [] == x && [] + x + [] == x && [] + [] + x == x
  {
  }

  /** A non-empty sequence is its head followed by its tail. */
  lemma HeadAndTail<T>(s: seq<T>)
    requires s != []
    ensures s == [s[0]] + s[1..]
  {
  }

  /** The tails of short literal sequences. */
  lemma Slices<T>(x: T, y: T, z: T)
    ensures [x, y, z][1..] == [y, z] && [y, z][1..] == [z] && [z][1..] == []
  {
  }

  /** One element in front of a pair is a triple. */
  lemma ConsOntoPair<T>(a: T, b: T, c: T)
    ensures [a] + [b, c] == [a, b, c]
  {
  }

  /** The multiset of a sequence with one element in front. */
  lemma MultisetCons<T>(x: T, s: seq<T>)
    ensures multiset([x] + s) == multiset{x} + multiset(s)
  {
  }

  /** One extra element in any of three multisets is one extra element in their sum. */
  lemma InsertOne<T>(x: T, p: multiset<T>, q: multiset<T>, r: multiset<T>)
    ensures (multiset{x} + p) + q + r == multiset{x} + (p + q + r)
    ensures p + (multiset{x} + q) + r == multiset{x} + (p + q + r)
    ensures p + q + (multiset{x} + r) == multiset{x} + (p + q + r)
  {
  }
}
