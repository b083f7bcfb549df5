/** Facts about sequence concatenation, stated once for every element type. */
module Seqs {
  /** Dropping the head of a concatenation with a non-empty left part. */
  lemma DropAppend<T>(a: seq<T>, b: seq<T>)
    requires |a| > 0
    ensures (a + b)[0] == a[0] && (a + b)[1..] == a[1..] + b
  {
  }

  /** Concatenation is associative. */
  lemma AppendAssoc<T>(a: seq<T>, b: seq<T>, c: seq<T>)
    ensures a + b + c == a + (b + c)
  {
  }

  /** An element among the first k has a last position there: none of the later ones of the k equals it. */
  lemma {:induction false} LastPosition<T>(s: seq<T>, k: nat, x: T)
    requires k <= |s| && exists i :: 0 <= i < k && s[i] == x
    ensures exists j :: 0 <= j < k && s[j] == x && forall m :: j < m < k ==> s[m] != x
    decreases k
  {
    if s[k - 1] != x {
      LastPosition(s, k - 1, x);
    }
  }
}
