/** Generic facts about slicing and concatenating sequences, each proved on
    its own so that the encoder's inductions stay small. */
module Seqs {

  /** A suffix splits at any later index. */
  lemma SplitAt<T>(s: seq<T>, i: nat, j: nat)
    requires i <= j <= |s|
    ensures s[i..] == s[i..j] + s[j..]
  {
  }

  /** A slice of the back part of a concatenation. */
  lemma AppendSlice<T>(x: seq<T>, y: seq<T>, lo: nat, hi: nat)
    requires lo <= hi <= |y|
    ensures (x + y)[|x| + lo..|x| + hi] == y[lo..hi]
  {
  }

  /** Appending one element, then a tail, is prepending the element to the tail. */
  lemma AppendOne<T>(a: seq<T>, x: T, rest: seq<T>)
    ensures (a + [x]) + rest == a + ([x] + rest)
  {
  }
}
