/**
 * Facts about sequence concatenation and slicing that several modules use
 * when they rebuild a text or a list from its pieces.
 */
module Seqs {

  /** Appending to an append regroups. */
  lemma AppendAssociates<T>(a: seq<T>, b: seq<T>, c: seq<T>)
    ensures a + (b + c) == (a + b) + c
  {
    forall k | 0 <= k < |a| + |b| + |c|
      ensures (a + (b + c))[k] == ((a + b) + c)[k]
    {
      if k < |a| + |b| {
        assert ((a + b) + c)[k] == (a + b)[k];
      }
    }
  }

  /** The last element of an append with a nonempty right part is the right part's last. */
  lemma LastOfAppend<T>(a: seq<T>, b: seq<T>)
    requires |b| > 0
    ensures (a + b)[|a + b| - 1] == b[|b| - 1]
  {
  }

  /** Two adjacent slices make up the slice that spans both. */
  lemma SlicesJoin<T>(s: seq<T>, i: nat, j: nat, k: nat)
    requires i <= j <= k <= |s|
    ensures s[i..j] + s[j..k] == s[i..k]
  {
    forall n | 0 <= n < k - i
      ensures (s[i..j] + s[j..k])[n] == s[i..k][n]
    {
      if n < j - i {
        assert (s[i..j] + s[j..k])[n] == s[i..j][n];
      }
    }
  }
}
