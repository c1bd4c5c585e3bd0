/** Facts about sequence slices, stated once for every element type. */
module Seqs {
  /** The slice up to the length is the whole sequence. */
  lemma WholePrefix<T>(s: seq<T>)
    ensures s[..|s|] == s
  {
  }

  /** The prefix of length i of the prefix of length i + 1. */
  lemma PrefixOfPrefix<T>(s: seq<T>, i: nat)
    requires i < |s|
    ensures s[..i + 1][..i] == s[..i]
    ensures s[..i + 1][i] == s[i]
  {
  }

  /** A non-empty prefix splits into its head and its tail. */
  lemma HeadTail<T>(s: seq<T>, z: seq<T>)
    requires s != []
    ensures [s[0]] + (s[1..] + z) == s + z
  {
    assert s == [s[0]] + s[1..];
  }

  /** A sequence is its prefix of length k followed by the rest. */
  lemma SplitAt<T>(s: seq<T>, k: nat)
    requires k <= |s|
    ensures s == s[..k] + s[k..]
  {
  }

  /** The head and tail of a concatenation with a non-empty left part. */
  lemma ConsConcat<T>(a: seq<T>, b: seq<T>)
    requires a != []
    ensures (a + b)[0] == a[0] && (a + b)[1..] == a[1..] + b
  {
  }

  /** k copies of x. */
  function Repeat<T>(x: T, k: nat): (r: seq<T>)
    ensures |r| == k && forall i :: 0 <= i < k ==> r[i] == x
  {
    if k == 0 then [] else [x] + Repeat(x, k - 1)
  }

  /** One more copy at the end. */
  lemma RepeatSnoc<T>(x: T, k: nat)
    ensures Repeat(x, k) + [x] == Repeat(x, k + 1)
  {
  }
}
