/** Order-preserving subsequences, shared by the simplifiers, the frame filter and the legend filter. */
module Seqs {

  /** out is s restricted to the strictly increasing positions idx. */
  ghost predicate SubseqAt<T>(out: seq<T>, s: seq<T>, idx: seq<int>) {
    |idx| == |out|
    && (forall k :: 0 <= k < |idx| ==> 0 <= idx[k] < |s| && out[k] == s[idx[k]])
    && (forall k :: 0 < k < |idx| ==> idx[k - 1] < idx[k])
  }
}
