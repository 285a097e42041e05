/**
  * Regrouping of concatenations: the extensional facts about sequences that the proofs about
  * encodings need over and over, stated once so that each use is a single step instead of a
  * search.
  */
module Seqs {

  lemma Regroup3<T>(a: seq<T>, b: seq<T>, c: seq<T>)
    ensures a + b + c == a + (b + c)
  {
  }

  lemma Regroup4<T>(a: seq<T>, b: seq<T>, c: seq<T>, d: seq<T>)
    ensures a + b + c + d == a + (b + (c + d))
  {
  }

  lemma Regroup5<T>(a: seq<T>, b: seq<T>, c: seq<T>, d: seq<T>, e: seq<T>)
    ensures a + b + c + d + e == a + (b + (c + (d + e)))
  {
  }

  lemma SplitPair<T>(x: T, y: T, k: seq<T>)
    ensures [x, y] + k == [x] + ([y] + k)
  {
  }

  /** A slice of what is left of `s` from `a` on. */
  lemma SuffixSlice<T>(s: seq<T>, a: nat, i: nat, j: nat)
    requires a <= |s| && i <= j <= |s| - a
    ensures s[a..][i..j] == s[a + i..a + j]
    ensures j == |s| - a ==> s[a..][i..] == s[a + i..]
    ensures i == 0 ==> s[a..][..j] == s[a..a + j]
  {
  }
}
