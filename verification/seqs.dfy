/** Facts about slicing and concatenating sequences that the proofs over text and over key lists share. */
module Seqs {

  /** A non-empty sequence is its first element followed by the rest. */
  lemma HeadTail<T>(s: seq<T>)
    requires |s| > 0
    ensures s == [s[0]] + s[1..]
  {
  }

  /** Splitting a sequence at any point and joining the halves gives it back. */
  lemma SplitAt<T>(s: seq<T>, k: nat)
    requires k <= |s|
    ensures s == s[..k] + s[k..]
  {
  }

  /** The last element of a non-empty suffix is the last element of the whole. */
  lemma LastOfSuffix<T>(s: seq<T>, k: nat)
    requires k < |s|
    ensures s[k..][|s| - k - 1] == s[|s| - 1]
  {
  }

  /** Appending to a non-empty sequence keeps its first element in front. */
  lemma ConsAppend<T>(w: seq<T>, x: seq<T>)
    requires |w| > 0
    ensures w + x == [w[0]] + (w[1..] + x)
  {
  }

  lemma Assoc<T>(a: seq<T>, b: seq<T>, c: seq<T>)
    ensures a + (b + c) == a + b + c
  {
  }

  /** Five pieces joined with the outer two absorbing their neighbours. */
  lemma Regroup<T>(p: seq<T>, l: seq<T>, m: seq<T>, t: seq<T>, q: seq<T>)
    ensures p + (l + m + t) + q == (p + l) + m + (t + q)
  {
  }
}
