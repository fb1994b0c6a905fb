/** Shape of the implicit complete binary tree behind the heap (root at
    index 0): parent/child arithmetic, the subtree relation, and the
    alternation of min and max levels. */
module HeapTree {

  /** Python's int.bit_length on a non-negative number. */
  function BitLength(n: nat): nat
  {
    if n == 0 then 0 else 1 + BitLength(n / 2)
  }

  function Pow2(k: nat): (r: nat)
    ensures r >= 1
  {
    if k == 0 then 1 else 2 * Pow2(k - 1)
  }

  /** The level rule: index i lies on a min level exactly when the bit length
      of its 1-based rank i + 1 is odd. The root is a min level, and every
      child has the opposite parity of its parent. */
  function IsMinLevel(i: nat): (r: bool)
    ensures i == 0 ==> r
  {
    BitLength(i + 1) % 2 == 1
  }

  /** A node and its parent lie on levels of opposite kinds. */
  lemma ParentLevel(i: nat)
    requires i > 0
    ensures IsMinLevel(i) == !IsMinLevel((i - 1) / 2)
  {
    assert (i + 1) / 2 == (i - 1) / 2 + 1;
  }

  /** upheap's parent of i. */
  function Parent(i: nat): nat
    requires i >= 1
  {
    (i - 1) / 2
  }

  /** upheap's grandparent of i: the parent of its parent. */
  function Grandparent(i: nat): nat
    requires i >= 3
  {
    Parent(Parent(i))
  }

  /** d lies in the subtree rooted at p (p itself included). */
  predicate InSubtree(d: nat, p: nat)
    decreases d
  {
    d == p || (d > p && InSubtree((d - 1) / 2, p))
  }

  /** The level of a rank is fixed by its bit length: level L (root = 0)
      holds the 1-based ranks [2^L, 2^(L+1)), i.e. indices [2^L - 1, 2^(L+1) - 2]. */
  lemma {:induction false} LevelSpan(i: nat)
    ensures BitLength(i + 1) >= 1
    ensures Pow2(BitLength(i + 1) - 1) <= i + 1 < Pow2(BitLength(i + 1))
    decreases i
  {
    if i > 0 {
      var p := (i - 1) / 2;
      LevelSpan(p);
      assert (i + 1) / 2 == p + 1;
    }
  }

  lemma ChildLevels(i: nat)
    ensures IsMinLevel(2 * i + 1) == !IsMinLevel(i)
    ensures IsMinLevel(2 * i + 2) == !IsMinLevel(i)
    ensures IsMinLevel(4 * i + 3) == IsMinLevel(i) && IsMinLevel(4 * i + 4) == IsMinLevel(i)
    ensures IsMinLevel(4 * i + 5) == IsMinLevel(i) && IsMinLevel(4 * i + 6) == IsMinLevel(i)
  {
    ParentLevel(2 * i + 1);
    ParentLevel(2 * i + 2);
    ParentLevel(4 * i + 3);
    ParentLevel(4 * i + 4);
    ParentLevel(4 * i + 5);
    ParentLevel(4 * i + 6);
  }

  lemma {:induction false} SubtreeBelow(d: nat, p: nat)
    requires InSubtree(d, p)
    ensures p <= d
    ensures d != p ==> 2 * p + 1 <= d
    decreases d
  {
    if d != p {
      var q := (d - 1) / 2;
      SubtreeBelow(q, p);
    }
  }

  lemma {:induction false} SubtreeTrans(d: nat, p: nat, q: nat)
    requires InSubtree(d, p) && InSubtree(p, q)
    ensures InSubtree(d, q)
    decreases d
  {
    SubtreeBelow(p, q);
    if d != p {
      SubtreeTrans((d - 1) / 2, p, q);
    }
  }

  /** Every node's ancestors form a chain: two ancestors of d are nested. */
  lemma {:induction false} SubtreeLinear(d: nat, p: nat, q: nat)
    requires InSubtree(d, p) && InSubtree(d, q) && p <= q
    ensures InSubtree(q, p)
    decreases d
  {
    if d != q {
      SubtreeLinear((d - 1) / 2, p, q);
    }
  }

  /** A proper descendant of p lies under exactly one of p's two children. */
  lemma {:induction false} SubtreeChild(d: nat, p: nat)
    requires InSubtree(d, p) && d != p
    ensures InSubtree(d, 2 * p + 1) || InSubtree(d, 2 * p + 2)
    decreases d
  {
    var q := (d - 1) / 2;
    if q != p {
      SubtreeChild(q, p);
      SubtreeBelow(q, p);
    }
  }

  /** Every index lies in the subtree of the root. */
  lemma {:induction false} AllUnderRoot(d: nat)
    ensures InSubtree(d, 0)
    decreases d
  {
    if d > 0 {
      AllUnderRoot((d - 1) / 2);
    }
  }

  /** If j is below i and p is not, then p is an ancestor of j exactly when
      it is an ancestor of i. */
  lemma SameSide(p: nat, i: nat, j: nat)
    requires InSubtree(j, i) && !InSubtree(p, i)
    ensures InSubtree(j, p) <==> InSubtree(i, p)
  {
    if InSubtree(i, p) {
      SubtreeTrans(j, i, p);
    }
    if InSubtree(j, p) {
      if p <= i {
        SubtreeLinear(j, p, i);
      } else {
        SubtreeLinear(j, i, p);
      }
    }
  }
}
