/** The MinMaxHeap class: a min-max heap (Atkinson, Sack, Santoro and
    Strothotte, Comms ACM 29(10), 1986) kept in place in a caller-supplied
    array over the range [0, end). Every operation permutes the array by
    exchanges; the order is the integers' `<`. */
module MinMax {
  import opened HeapTree
  import opened HeapOrder
  import opened HeapRepair
  import opened HeapSift

  class MinMaxHeap {
    /** The caller's array, shared with the caller and permuted in place. */
    const a: array<int>
    /** One past the last element of the heap; the heap starts at 0. */
    var end: nat

    ghost predicate Valid()
      reads this
    {
      end <= a.Length
    }

    /** check_heap: the min-max heap property over [0, end). */
    ghost predicate CheckHeap()
      reads this, a
      requires Valid()
    {
      MinMaxOrdered(a[..], end)
    }

    /** Wraps a[..end] and, when it holds more than one element, heapifies it. */
    constructor (a: array<int>, end: nat)
      requires end <= a.Length
      modifies a
      ensures this.a == a && this.end == end && Valid()
      ensures CheckHeap()
      ensures multiset(a[..]) == old(multiset(a[..]))
      ensures a[end..] == old(a[end..])
      ensures end <= 1 ==> a[..] == old(a[..])
    {
      this.a := a;
      this.end := end;
      new;
      if end > 1 {
        Heapify();
      } else if end == 1 {
        LeafOk(a[..], 1, 0);
      }
    }

    /** Exchanges a[i] and a[j]. */
    method Swap(i: nat, j: nat)
      requires i < a.Length && j < a.Length
      modifies a
      ensures a[..] == Swapped(old(a[..]), i, j)
    {
      a[i], a[j] := a[j], a[i];
    }

    /** The candidate scan of downheap: among the children and grandchildren
        of i inside the range, the first position (left child, right child,
        then the grandchildren left to right) whose value is most extreme
        under cf, which is `<` on a min level and `>` on a max level. */
    method ExtremeCandidate(i: nat, isMin: bool) returns (nexti: nat)
      requires Valid() && 2 * i + 1 < end
      ensures Near(i, nexti) && nexti < end
      ensures forall c: nat :: c < end && Near(i, c) ==> Ordered(isMin, a[nexti], a[c])
      ensures forall c: nat :: Near(i, c) && c < nexti ==> Better(isMin, a[nexti], a[c])
    {
      var left := 2 * i + 1;
      var right := left + 1;
      nexti := left;
      var candidates := [right, 2 * left + 1, 2 * left + 2, 2 * right + 1, 2 * right + 2];
      var k := 0;
      while k < |candidates|
        invariant 0 <= k <= |candidates|
        invariant Near(i, nexti) && nexti < end
        invariant k < |candidates| ==> nexti < candidates[k]
        invariant forall c: nat :: c < end && Near(i, c) && (k < |candidates| ==> c < candidates[k]) ==>
                    Ordered(isMin, a[nexti], a[c])
        invariant forall c: nat :: Near(i, c) && c < nexti ==> Better(isMin, a[nexti], a[c])
      {
        var c := candidates[k];
        if c >= end {
          break;
        }
        if Better(isMin, a[c], a[nexti]) {
          nexti := c;
        }
        k := k + 1;
      }
    }

    /** downheap(i0): sifts the value at i0 down the subtree of i0, moving
        values up to two levels per step. Only cells of that subtree inside
        [0, end) move; the nodes outside it keep their checks; and when every
        node of the subtree but i0 passed its check before, all of them pass
        afterwards. */
    method Downheap(i0: nat)
      requires Valid() && i0 < end
      modifies a
      ensures DownFrame(old(a[..]), a[..], end, i0)
      ensures old(BelowOk(a[..], end, i0, i0)) ==>
                forall p: nat :: p < end && InSubtree(p, i0) ==> NodeOk(a[..], end, p)
    {
      ghost var s0 := a[..];
      ghost var below := BelowOk(a[..], end, i0, i0);
      DownFrameStart(s0, end, i0);
      var i := i0;
      var isMin := IsMinLevel(i);
      var left := 2 * i + 1;
      while left < end
        invariant left == 2 * i + 1 && isMin == IsMinLevel(i)
        invariant DownState(s0, a[..], end, i0, i, below)
        decreases end - i
      {
        var right := left + 1;
        var nexti := ExtremeCandidate(i, isMin);
        ghost var s := a[..];
        assert Extreme(s, end, i, nexti);
        if nexti <= right {
          if Better(isMin, a[nexti], a[i]) {
            Swap(nexti, i);
            SwappedSym(s, nexti, i);
          }
          DownChildLast(s0, s, end, i0, i, nexti, a[..], below);
          return;
        } else {
          if Better(isMin, a[nexti], a[i]) {
            Swap(nexti, i);
            SwappedSym(s, nexti, i);
            ghost var s1 := a[..];
            var parent := (nexti - 1) / 2;
            if Better(isMin, a[parent], a[nexti]) {
              Swap(nexti, parent);
            }
            DownGrandNext(s0, s, end, i0, i, nexti, s1, parent, a[..], below);
          } else {
            DownGrandStay(s0, s, end, i0, i, nexti, below);
            return;
          }
        }
        i := nexti;
        left := 2 * i + 1;
      }
      DownLeaf(s0, a[..], end, i0, i, below);
    }

    /** upheap on the last element end - 1: one exchange with the parent if
        the element beats it under the parent's ordering, then the climb of
        UpheapClimb. Only cells of [0, end) move; if [0, end - 1) was a heap,
        [0, end) is one afterwards. */
    method Upheap()
      requires Valid() && 0 < end
      modifies a
      ensures multiset(a[..]) == old(multiset(a[..]))
      ensures ChainFrame(old(a[..]), a[..], end - 1) && a[end..] == old(a[end..])
      ensures old(MinMaxOrdered(a[..], end - 1)) ==> MinMaxOrdered(a[..], end)
    {
      ghost var s0 := a[..];
      ghost var below := MinMaxOrdered(a[..], end - 1);
      var i: nat := end - 1;
      if i == 0 {
        if below {
          LeafOk(a[..], 1, 0);
        }
        return;
      }
      var parent: int := (i - 1) / 2;
      // On a min level the element is tested with gt against its parent, on
      // a max level with lt; cf becomes the parent's ordering after an
      // exchange and stays the element's own ordering otherwise.
      var isMin := IsMinLevel(i);
      if Better(!isMin, a[i], a[parent]) {
        Swap(i, parent);
        i := parent;
        isMin := !isMin;
      }
      ParentLevel(end - 1);
      UpBegin(s0, end, (end - 2) / 2, i, a[..], below);
      UpheapClimb(i, isMin, s0, below);
    }

    /** The loop of upheap, from the cursor i0: while the cursor i has a grandparent and beats it
        under i's ordering cf (`<` when isMin, `>` otherwise), the two are
        exchanged and the cursor moves up two levels. */
    method UpheapClimb(i0: nat, isMin: bool, ghost s0: seq<int>, ghost below: bool)
      requires Valid() && UpState(s0, a[..], end, i0, below) && isMin == IsMinLevel(i0)
      modifies a
      ensures multiset(a[..]) == multiset(s0) && a[end..] == s0[end..]
      ensures ChainFrame(s0, a[..], end - 1)
      ensures below ==> MinMaxOrdered(a[..], end)
    {
      var i: nat := i0;
      var parent: int := (i - 1) / 2;
      var grandparent: int := (parent - 1) / 2;
      while i >= 3 && Better(isMin, a[i], a[grandparent])
        invariant isMin == IsMinLevel(i)
        invariant parent == (i - 1) / 2 && grandparent == (parent - 1) / 2
        invariant UpState(s0, a[..], end, i, below)
        decreases i
      {
        ghost var s := a[..];
        UpClimb(s0, s, end, i, grandparent, below);
        Swap(i, grandparent);
        assert a[..] == Swapped(s, i, grandparent);
        i := grandparent;
        parent := (i - 1) / 2;
        grandparent := (parent - 1) / 2;
      }
      UpDone(s0, a[..], end, i, grandparent, isMin, below);
      assert a[end..] == a[..][end..];
    }

    /** Grows the heap's range by one cell of the array. */
    method IncrementEnd()
      requires Valid() && end < a.Length
      modifies this
      ensures Valid() && end == old(end) + 1
    {
      end := end + 1;
    }

    /** Shrinks the heap's range by one cell; a heap stays a heap. */
    method DecrementEnd()
      requires Valid() && end > 0
      modifies this
      ensures Valid() && end == old(end) - 1
      ensures old(CheckHeap()) ==> CheckHeap()
    {
      end := end - 1;
      if old(CheckHeap()) {
        ShrinkKeepsHeap(a[..], end + 1, end);
      }
    }

    /** Establishes the heap property over [0, end) by downheaping each
        index from (end - 1) / 2 back to the root. When end is odd, the
        first of these is a leaf, and its downheap does nothing. */
    method Heapify()
      requires Valid()
      modifies a
      ensures CheckHeap()
      ensures multiset(a[..]) == old(multiset(a[..]))
      ensures a[end..] == old(a[end..])
    {
      var i: int := (end - 1) / 2 + 1;
      forall p: nat | i <= p < end
        ensures NodeOk(a[..], end, p)
      {
        LeafOk(a[..], end, p);
      }
      while i > 0
        invariant 0 <= i <= end
        invariant forall p: nat :: i <= p < end ==> NodeOk(a[..], end, p)
        invariant multiset(a[..]) == old(multiset(a[..]))
        invariant a[end..] == old(a[end..])
      {
        i := i - 1;
        forall p: nat | p < end && InSubtree(p, i) && p != i
          ensures NodeOk(a[..], end, p)
        {
          SubtreeBelow(p, i);
        }
        Downheap(i);
      }
    }

    /** store_min: moves the minimum of [0, end) to the cell just past the
        shrunk range; the rest stays a heap. */
    method StoreMin()
      requires Valid() && CheckHeap() && end > 0
      modifies this, a
      ensures Valid() && end == old(end) - 1 && CheckHeap()
      ensures a[end] == old(a[0])
      ensures forall x | x in old(a[..end]) :: a[end] <= x
      ensures multiset(a[..]) == old(multiset(a[..]))
      ensures multiset(a[..end]) + multiset{a[end]} == old(multiset(a[..end]))
      ensures a[end + 1..] == old(a[end..])
    {
      ghost var s := a[..];
      ghost var n := end;
      MinAtRoot(s, n);
      end := end - 1;
      if end > 0 {
        Swap(0, end);
        ghost var t := a[..];
        StoreMinPrepared(s, n, end, t);
        Downheap(0);
        StoreDone(s, t, a[..], n, end, 0);
      } else {
        ExtractTail(s, s, n, end);
      }
    }

    /** store_max: moves the maximum of [0, end), the larger child of the root
        (the left one on a tie), to the cell just past the shrunk range; the
        rest stays a heap. The downheap of the vacated child runs only when
        that child is still inside the range. */
    method StoreMax()
      requires Valid() && CheckHeap() && end > 0
      modifies this, a
      ensures Valid() && end == old(end) - 1 && CheckHeap()
      ensures old(end) >= 2 ==> a[end] == old(a[..])[MaxChildIndex(old(a[..]), end)]
      ensures forall x | x in old(a[..end]) :: x <= a[end]
      ensures multiset(a[..]) == old(multiset(a[..]))
      ensures multiset(a[..end]) + multiset{a[end]} == old(multiset(a[..end]))
      ensures a[end + 1..] == old(a[end..])
    {
      ghost var s := a[..];
      ghost var n := end;
      end := end - 1;
      if end > 0 {
        var imax := 1;
        if end > imax && a[imax] < a[imax + 1] {
          imax := imax + 1;
        }
        assert imax == MaxChildIndex(s, end);
        MaxAtRootChild(s, n);
        Swap(imax, end);
        ghost var t := a[..];
        if imax < end {
          StoreMaxPrepared(s, n, end, imax, t);
          Downheap(imax);
        }
        StoreDone(s, t, a[..], n, end, imax);
      } else {
        ExtractTail(s, s, n, end);
      }
    }
  }
}
