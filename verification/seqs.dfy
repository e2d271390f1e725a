/** Facts about sequence concatenation used by the inductive proofs of the other modules. */
module Seqs {

  lemma ConcatAssoc<T>(p: seq<T>, q: seq<T>, o: seq<T>)
    ensures p + (q + o) == (p + q) + o
  {
  }

  /** A non-empty sequence is its head followed by its tail. */
  lemma HeadTail<T>(s: seq<T>)
    requires s != []
    ensures s == [s[0]] + s[1..]
  {
  }

  /** The head and the tail of `[a] + r`. */
  lemma ConsParts<T>(a: T, r: seq<T>)
    ensures ([a] + r)[0] == a && ([a] + r)[1..] == r
  {
  }

  /** Cutting out the element at `i`. */
  lemma SplitAt<T>(s: seq<T>, i: nat)
    requires i < |s|
    ensures s == s[..i] + ([s[i]] + s[i + 1..])
  {
  }

  /** Cutting `s` into a prefix, a middle and a suffix. */
  lemma SplitThree<T>(s: seq<T>, a: nat, b: nat)
    requires a <= b <= |s|
    ensures s == s[..a] + (s[a..b] + s[b..])
  {
  }
}
