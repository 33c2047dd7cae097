/** Deletion-only transformations: one text is a subsequence of another. */
module Subsequence {

  /** `a` is obtained from `b` by deleting characters: nothing is added and
      nothing is reordered. */
  predicate IsSubseq(a: string, b: string)
    decreases |b|
  {
    if a == [] then true
    else if b == [] then false
    else (a[0] == b[0] && IsSubseq(a[1..], b[1..])) || IsSubseq(a, b[1..])
  }

  /** Deleting a prefix of `b` first keeps every subsequence of what is left. */
  lemma {:induction false} SubseqOfSuffix(a: string, b: string, k: nat)
    requires k <= |b| && IsSubseq(a, b[k..])
    ensures IsSubseq(a, b)
    decreases k
  {
    if k > 0 && a != [] {
      assert b[1..][k - 1..] == b[k..];
      SubseqOfSuffix(a, b[1..], k - 1);
    }
  }

  lemma {:induction false} SubseqTrans(a: string, b: string, c: string)
    requires IsSubseq(a, b) && IsSubseq(b, c)
    ensures IsSubseq(a, c)
    decreases |c|
  {
    if a != [] {
      if b[0] == c[0] && IsSubseq(b[1..], c[1..]) {
        if a[0] == b[0] && IsSubseq(a[1..], b[1..]) {
          SubseqTrans(a[1..], b[1..], c[1..]);
        } else {
          SubseqTrans(a, b[1..], c[1..]);
        }
      } else {
        SubseqTrans(a, b, c[1..]);
      }
    }
  }

  /** Any contiguous slice of `b` is a subsequence of `b`. */
  lemma {:induction false} SliceIsSubseq(b: string, i: nat, j: nat)
    requires i <= j <= |b|
    ensures IsSubseq(b[i..j], b)
    decreases |b|
  {
    if i < j {
      if i == 0 {
        assert b[i..j][1..] == b[1..][0..j - 1];
        SliceIsSubseq(b[1..], 0, j - 1);
      } else {
        SliceOfTail(b, i, j);
        SliceIsSubseq(b[1..], i - 1, j - 1);
      }
    }
  }

  lemma SliceOfTail(b: string, i: nat, j: nat)
    requires 0 < i <= j <= |b|
    ensures b[i..j] == b[1..][i - 1..j - 1]
  {
    assert forall k :: 0 <= k < j - i ==> b[i..j][k] == b[1..][i - 1..j - 1][k];
  }
}
