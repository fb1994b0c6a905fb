/** store_max as written hands downheap an index outside the shrunk heap
    when the heap held two elements, or three with the right child the
    larger; downheap's entry assertion then fails. MinMax.MinMaxHeap.StoreMax
    runs the downheap only for an index inside the range. */
module Findings {
  import opened HeapTree
  import opened HeapOrder

  /** What store_max as written computes before its downheap call: the
      shrunk end and the index it exchanges with that end and downheaps. */
  datatype StoreMaxCall = StoreMaxCall(newEnd: nat, imax: nat)

  /** store_max as written, with start 0, on a heap of n >= 2 elements (for
      fewer it returns before choosing an index): it shrinks the range to
      n - 1 and picks the larger root child as MaxChildIndex does, then
      downheaps that child whether or not it is still inside the range. */
  function StoreMaxAsWritten(s: seq<int>, n: nat): StoreMaxCall
    requires 2 <= n <= |s|
  {
    StoreMaxCall(n - 1, MaxChildIndex(s, n - 1))
  }

  /** downheap's entry assertion, with start 0. */
  predicate DownheapAccepts(i: nat, end: nat)
  {
    i < end
  }

  /** The as-written downheap call is rejected exactly for a heap of two
      elements, or of three whose right child holds the larger value. */
  lemma AsWrittenRejected(s: seq<int>, n: nat)
    requires 2 <= n <= |s|
    ensures !DownheapAccepts(StoreMaxAsWritten(s, n).imax, StoreMaxAsWritten(s, n).newEnd)
            <==> n == 2 || (n == 3 && s[1] < s[2])
  {
    var r := StoreMaxAsWritten(s, n);
    if n == 3 && !(s[1] < s[2]) {
      assert r.imax == 1;
    }
  }

  /** [1, 2] is a heap (1 on the min level, 2 below it), and store_max as
      written downheaps index 1 of a range that ends at 1. */
  lemma TwoElementHeapRejected()
    ensures MinMaxOrdered([1, 2], 2)
    ensures StoreMaxAsWritten([1, 2], 2) == StoreMaxCall(1, 1)
    ensures !DownheapAccepts(1, 1)
  {
    var s := [1, 2];
    assert IsMinLevel(0);
    assert !InSubtree(0, 1);
    forall p: nat | p < 2
      ensures NodeOk(s, 2, p)
    {
      if p == 1 {
        assert forall d: nat :: d < 2 && InSubtree(d, 1) ==> d == 1;
      }
    }
  }

  /** [1, 2, 3] is a heap, and store_max as written picks the larger right
      child 2, which is the shrunk range's end. */
  lemma ThreeElementHeapRejected()
    ensures MinMaxOrdered([1, 2, 3], 3)
    ensures StoreMaxAsWritten([1, 2, 3], 3) == StoreMaxCall(2, 2)
    ensures !DownheapAccepts(2, 2)
  {
    var s := [1, 2, 3];
    assert IsMinLevel(0);
    forall p: nat | p < 3
      ensures NodeOk(s, 3, p)
    {
      if p == 1 {
        assert forall d: nat :: d < 3 && InSubtree(d, 1) ==> d == 1;
      } else if p == 2 {
        assert forall d: nat :: d < 3 && InSubtree(d, 2) ==> d == 2;
      }
    }
  }
}
