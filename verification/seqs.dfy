/** Sequence helpers shared by the collections of the model. */
module Seqs {

  /** `s` without the element at index `k`: what deleting one document or one
      `Map` entry leaves, in order. */
  function RemoveAt<T>(s: seq<T>, k: int): (r: seq<T>)
    requires 0 <= k < |s|
    ensures |r| == |s| - 1
    ensures forall i :: 0 <= i < |r| ==> r[i] == s[if i < k then i else i + 1]
  {
    s[..k] + s[k + 1..]
  }
}
