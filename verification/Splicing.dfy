/** Overwriting a part of a sequence. */
module Splicing {

  /** s with the elements from position k on overwritten by t. */
  function Splice<D>(s: seq<D>, k: nat, t: seq<D>): (r: seq<D>)
    requires k + |t| <= |s|
    ensures |r| == |s|
    ensures forall b :: 0 <= b < |s| ==> r[b] == if k <= b < k + |t| then t[b - k] else s[b]
  {
    s[..k] + t + s[k + |t|..]
  }

  /** Writing one block after the other is writing both at once. */
  lemma SpliceTwice<D>(s: seq<D>, k: nat, t: seq<D>, u: seq<D>)
    requires k + |t| + |u| <= |s|
    ensures Splice(Splice(s, k, t), k + |t|, u) == Splice(s, k, t + u)
  {
  }
}
