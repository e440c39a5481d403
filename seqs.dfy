/** Small facts about slicing sequences, stated once for every module that needs them. */
module Seqs {
  /** Taking one more element is taking the element after the prefix. */
  lemma TakeSnoc<T>(a: seq<T>, i: nat)
    requires i < |a|
    ensures a[..i + 1] == a[..i] + [a[i]]
  {
  }

  /** The prefix one longer, cut back, is the prefix; its last element is the next one. */
  lemma PrefixOfNext<T>(a: seq<T>, i: nat)
    requires i < |a|
    ensures a[..i + 1][..i] == a[..i] && a[..i + 1][i] == a[i] && |a[..i + 1]| == i + 1
  {
  }

  /** Dropping the first element of a non-empty sequence with one element more. */
  lemma SnocTail<T>(a: seq<T>, x: T)
    requires a != []
    ensures (a + [x])[0] == a[0] && (a + [x])[1..] == a[1..] + [x]
  {
  }

  /** Slicing a sequence with one element more, at a point inside the original. */
  lemma SnocSlices<T>(a: seq<T>, x: T, n: nat)
    requires n <= |a|
    ensures (a + [x])[..n] == a[..n] && (a + [x])[n..] == a[n..] + [x]
  {
  }

  /** Slicing the tail of a sequence is slicing the sequence one further on. */
  lemma TailSlices<T>(a: seq<T>, n: nat)
    requires n < |a|
    ensures a[1..][..n] == a[1..n + 1] && a[1..][n..] == a[n + 1..]
    ensures forall k :: 0 <= k < n ==> a[1..][k] == a[k + 1]
  {
  }
}
