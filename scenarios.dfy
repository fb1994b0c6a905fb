/** The module's own self-tests, over every input the shuffles can produce:
    sorting fifteen letters with store_max and store_min, and building a heap
    one upheap at a time. Letters are held as their character codes. */
module Scenarios {
  import opened HeapOrder
  import opened HeapSift
  import opened MinMax

  /** The character codes of a string. */
  function Codes(s: string): (r: seq<int>)
    ensures |r| == |s|
  {
    seq(|s|, i requires 0 <= i < |s| => s[i] as int)
  }

  /** r counts from start by one, upwards or downwards. */
  ghost predicate Counting(r: seq<int>, start: int, up: bool)
  {
    forall i :: 0 <= i < |r| ==> r[i] == if up then start + i else start - i
  }

  lemma CountingExists(len: nat, start: int, up: bool)
    ensures exists r :: |r| == len && Counting(r, start, up)
  {
    var r := seq(len, i requires 0 <= i < len => if up then start + i else start - i);
    assert Counting(r, start, up);
  }

  /** The integers lo, lo + 1, ..., hi - 1 in increasing order. The body
      chooses a sequence with that description (CountingExists builds one
      with a seq comprehension), so callers see only the contract and not
      the comprehension's axioms. */
  ghost function Range(lo: int, hi: int): (r: seq<int>)
    requires lo <= hi
    ensures |r| == hi - lo && forall i :: 0 <= i < hi - lo ==> r[i] == lo + i
  {
    CountingExists(hi - lo, lo, true);
    var r :| |r| == hi - lo && Counting(r, lo, true);
    r
  }

  /** The integers hi - 1, hi - 2, ..., lo in decreasing order, chosen in
      the same way as Range. */
  ghost function Down(lo: int, hi: int): (r: seq<int>)
    requires lo <= hi
    ensures |r| == hi - lo && forall i :: 0 <= i < hi - lo ==> r[i] == hi - 1 - i
  {
    CountingExists(hi - lo, hi - 1, false);
    var r :| |r| == hi - lo && Counting(r, hi - 1, false);
    r
  }

  lemma RangeMembers(lo: int, hi: int, x: int)
    requires lo <= hi
    ensures x in Range(lo, hi) <==> lo <= x < hi
  {
    if lo <= x < hi {
      assert Range(lo, hi)[x - lo] == x;
    }
  }

  /** Taking the largest element out of a heap range holding the codes
      [lo, hi): it is hi - 1, and the range then holds [lo, hi - 1). */
  lemma TakeLargest(w: seq<int>, u: seq<int>, v: int, lo: int, hi: int)
    requires lo < hi && multiset(w) == multiset(Range(lo, hi))
    requires multiset(u) + multiset{v} == multiset(w)
    requires forall x | x in w :: x <= v
    ensures v == hi - 1 && multiset(u) == multiset(Range(lo, hi - 1))
  {
    assert v in multiset(w);
    RangeMembers(lo, hi, v);
    RangeMembers(lo, hi, hi - 1);
    assert hi - 1 in multiset(w);
    assert hi - 1 in w;
    assert Range(lo, hi) == Range(lo, hi - 1) + [hi - 1];
    MultisetCancel(multiset(u), multiset(Range(lo, hi - 1)), multiset{v});
  }

  /** Taking the smallest element out of a heap range holding the codes
      [lo, hi): it is lo, and the range then holds [lo + 1, hi). */
  lemma TakeSmallest(w: seq<int>, u: seq<int>, v: int, lo: int, hi: int)
    requires lo < hi && multiset(w) == multiset(Range(lo, hi))
    requires multiset(u) + multiset{v} == multiset(w)
    requires forall x | x in w :: v <= x
    ensures v == lo && multiset(u) == multiset(Range(lo + 1, hi))
  {
    assert v in multiset(w);
    RangeMembers(lo, hi, v);
    RangeMembers(lo, hi, lo);
    assert lo in multiset(w);
    assert lo in w;
    assert Range(lo, hi) == [lo] + Range(lo + 1, hi);
    MultisetCancel(multiset(u), multiset(Range(lo + 1, hi)), multiset{v});
  }

  /** One store_max of the sorting self-test, on sequences: the heap range
      [0, e] held the codes [lo, hi) and the cells after it held [hi, top);
      the largest code moves to e. */
  lemma MaxStep(w: seq<int>, t: seq<int>, s: seq<int>, e: nat, lo: int, hi: int, top: int)
    requires lo < hi <= top && e < |s|
    requires multiset(w) == multiset(Range(lo, hi)) && t == Range(hi, top)
    requires multiset(s[..e]) + multiset{s[e]} == multiset(w)
    requires forall x | x in w :: x <= s[e]
    requires s[e + 1..] == t
    ensures multiset(s[..e]) == multiset(Range(lo, hi - 1)) && s[e..] == Range(hi - 1, top)
  {
    TakeLargest(w, s[..e], s[e], lo, hi);
    assert s[e..] == [s[e]] + s[e + 1..];
    assert Range(hi - 1, top) == [hi - 1] + Range(hi, top);
  }

  /** One store_min of the sorting self-test, on sequences: the heap range
      [0, e] held the codes [lo, hi) and the cells after it held the codes
      below lo in decreasing order followed by rest; the smallest code moves
      to e. */
  lemma MinStep(w: seq<int>, t: seq<int>, s: seq<int>, e: nat, base: int, lo: int, hi: int, rest: seq<int>)
    requires base <= lo < hi && e < |s|
    requires multiset(w) == multiset(Range(lo, hi)) && t == Down(base, lo) + rest
    requires multiset(s[..e]) + multiset{s[e]} == multiset(w)
    requires forall x | x in w :: s[e] <= x
    requires s[e + 1..] == t
    ensures multiset(s[..e]) == multiset(Range(lo + 1, hi)) && s[e..] == Down(base, lo + 1) + rest
  {
    TakeSmallest(w, s[..e], s[e], lo, hi);
    assert s[e..] == [s[e]] + s[e + 1..];
    assert Down(base, lo + 1) == [lo] + Down(base, lo);
  }

  lemma LettersAreRange()
    ensures Codes("abcdefghijklmno") == Range(97, 112)
  {
    var c, r := Codes("abcdefghijklmno"), Range(97, 112);
    forall i | 0 <= i < 15
      ensures c[i] == r[i]
    {
    }
  }

  lemma ExpectedOrder()
    ensures Codes("gfedcbahijklmno") == Down(97, 104) + Range(104, 112)
  {
    var c, r := Codes("gfedcbahijklmno"), Down(97, 104) + Range(104, 112);
    forall i | 0 <= i < 15
      ensures c[i] == r[i]
    {
    }
  }

  /** The heap's range holds the codes [lo, bound) and the cells after it
      hold [bound, top) in increasing order. */
  ghost predicate LargestState(h: MinMaxHeap, lo: int, bound: int, top: int)
    reads h, h.a
  {
    && h.Valid() && h.CheckHeap() && bound == lo + h.end && bound <= top
    && multiset(h.a[..h.end]) == multiset(Range(lo, bound))
    && h.a[h.end..] == Range(bound, top)
  }

  /** One store_max: the code bound - 1 joins the increasing run. */
  method StoreLargestOne(h: MinMaxHeap, ghost lo: int, ghost bound: int, ghost top: int)
    returns (ghost bound': int)
    requires LargestState(h, lo, bound, top) && 0 < h.end
    modifies h, h.a
    ensures bound' == bound - 1 && LargestState(h, lo, bound', top) && h.end == old(h.end) - 1
  {
    ghost var w, t := h.a[..h.end], h.a[h.end..];
    h.StoreMax();
    MaxStep(w, t, h.a[..], h.end, lo, bound, top);
    bound' := bound - 1;
  }

  /** count store_max calls on a heap whose range holds the codes
      [lo, lo + end) and whose cells after it hold [lo + end, top) in
      increasing order: the count largest codes of the range follow it,
      still in increasing order. */
  method StoreLargest(h: MinMaxHeap, count: nat, ghost lo: int, ghost top: int)
    requires LargestState(h, lo, lo + h.end, top) && count <= h.end
    modifies h, h.a
    ensures LargestState(h, lo, lo + h.end, top) && h.end == old(h.end) - count
  {
    var k := 0;
    ghost var bound := lo + h.end;
    while k < count
      invariant 0 <= k <= count && h.end == old(h.end) - k
      invariant LargestState(h, lo, bound, top)
    {
      bound := StoreLargestOne(h, lo, bound, top);
      k := k + 1;
    }
  }

  /** The heap's range holds the codes [next, hi) and the cells after it
      hold the codes [base, next) in decreasing order followed by rest. */
  ghost predicate SmallestState(h: MinMaxHeap, base: int, next: int, hi: int, rest: seq<int>)
    reads h, h.a
  {
    && h.Valid() && h.CheckHeap() && base <= next && hi == next + h.end
    && multiset(h.a[..h.end]) == multiset(Range(next, hi))
    && h.a[h.end..] == Down(base, next) + rest
  }

  /** One store_min: the code next joins the decreasing run. */
  method StoreSmallestOne(h: MinMaxHeap, ghost base: int, ghost next: int, ghost hi: int, ghost rest: seq<int>)
    returns (ghost next': int)
    requires SmallestState(h, base, next, hi, rest) && 0 < h.end
    modifies h, h.a
    ensures next' == next + 1 && SmallestState(h, base, next', hi, rest) && h.end == old(h.end) - 1
  {
    ghost var w, t := h.a[..h.end], h.a[h.end..];
    h.StoreMin();
    MinStep(w, t, h.a[..], h.end, base, next, hi, rest);
    next' := next + 1;
  }

  /** count store_min calls on a heap whose range holds the codes [lo, hi)
      and whose cells after it hold the codes [base, lo) in decreasing order
      followed by rest: the count smallest codes of the range join the
      decreasing run. */
  method StoreSmallest(h: MinMaxHeap, count: nat, ghost base: int, ghost lo: int, ghost hi: int,
                       ghost rest: seq<int>)
    requires SmallestState(h, base, lo, hi, rest) && count <= h.end
    modifies h, h.a
    ensures SmallestState(h, base, lo + count, hi, rest) && h.end == old(h.end) - count
  {
    var k := 0;
    ghost var next := lo;
    while k < count
      invariant 0 <= k <= count && h.end == old(h.end) - k && next == lo + k
      invariant SmallestState(h, base, next, hi, rest)
    {
      next := StoreSmallestOne(h, base, next, hi, rest);
      k := k + 1;
    }
  }

  /** The sorting self-test: a heap over a shuffle of the letters a to o,
      n - n / 2 store_max calls and then n / 2 store_min calls leave the
      array reading "gfedcbahijklmno", whatever the shuffle was. */
  method SortScenario(a: array<int>)
    requires a.Length == 15 && multiset(a[..]) == multiset(Codes("abcdefghijklmno"))
    modifies a
    ensures a[..] == Codes("gfedcbahijklmno")
  {
    LettersAreRange();
    var h := new MinMaxHeap(a, a.Length);
    assert a[..h.end] == a[..];
    var n := a.Length;
    var smallHalf := n / 2;
    StoreLargest(h, n - smallHalf, 97, 112);
    assert Range(104, 112) == Down(97, 97) + Range(104, 112);
    StoreSmallest(h, smallHalf, 97, 97, 104, Range(104, 112));
    ExpectedOrder();
    assert a[..] == a[h.end..];
  }

  /** The insertion self-test: starting from an empty heap over a shuffled
      array, growing the range by one cell and upheaping the new element,
      once per cell, leaves a heap over the whole array holding the same
      elements. */
  method InsertScenario(a: array<int>)
    modifies a
    ensures multiset(a[..]) == old(multiset(a[..]))
    ensures MinMaxOrdered(a[..], a.Length)
  {
    var h := new MinMaxHeap(a, 0);
    var n := a.Length;
    var i := 0;
    while i < n
      invariant 0 <= i <= n && h.a == a && h.Valid() && h.end == i && h.CheckHeap()
      invariant multiset(a[..]) == old(multiset(a[..]))
    {
      h.IncrementEnd();
      h.Upheap();
      i := i + 1;
    }
  }
}
