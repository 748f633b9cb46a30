/** Python's `range(lo, hi)` over integers. */
module Ranges {

  /** `list(range(lo, hi))`: the integers from `lo` up to, not including,
      `hi`, in increasing order; empty when `hi <= lo`. */
  function Range(lo: int, hi: int): (r: seq<int>)
    ensures |r| == if hi <= lo then 0 else hi - lo
    ensures forall i :: 0 <= i < |r| ==> r[i] == lo + i
    decreases hi - lo
  {
    if hi <= lo then [] else Range(lo, hi - 1) + [hi - 1]
  }

  lemma RangeMembers(lo: int, hi: int)
    ensures forall p :: p in Range(lo, hi) <==> lo <= p < hi
  {
    var r := Range(lo, hi);
    forall p | lo <= p < hi
      ensures p in r
    {
      assert r[p - lo] == p;
    }
  }
}
