/** The min-max heap property over a prefix s[..n] of an array, and the
    facts about it that the repair routines and the extremum operations use.
    This is the boolean part of check_heap: every node on a min level is <=
    everything in its subtree, every node on a max level is >= it. */
module HeapOrder {
  import opened HeapTree

  /** x may sit above y in a subtree whose root is on a min level (isMin)
      or a max level (!isMin). */
  predicate Ordered(isMin: bool, x: int, y: int)
  {
    if isMin then x <= y else y <= x
  }

  /** The comparison cf of downheap and upheap: lt on a min level, gt on a
      max level (gt(x, y) is lt(y, x)). */
  predicate Better(isMin: bool, x: int, y: int)
  {
    if isMin then x < y else y < x
  }

  /** check_posn(p): s[p] is ordered against every node of its subtree below n. */
  ghost predicate NodeOk(s: seq<int>, n: nat, p: nat)
    requires p < n <= |s|
  {
    forall d: nat :: d < n && InSubtree(d, p) ==> Ordered(IsMinLevel(p), s[p], s[d])
  }

  /** The same, except that the pair (p, i) is not checked. */
  ghost predicate NodeOkExcept(s: seq<int>, n: nat, p: nat, i: nat)
    requires p < n <= |s|
  {
    forall d: nat :: d < n && InSubtree(d, p) && d != i ==> Ordered(IsMinLevel(p), s[p], s[d])
  }

  /** The invariant check_heap asserts over the range [0, n). */
  ghost predicate MinMaxOrdered(s: seq<int>, n: nat)
    requires n <= |s|
  {
    forall p: nat :: p < n ==> NodeOk(s, n, p)
  }

  /** The positions downheap looks at below i: the two children and the four
      grandchildren. */
  predicate Near(i: nat, c: nat)
  {
    c == 2 * i + 1 || c == 2 * i + 2 || 4 * i + 3 <= c <= 4 * i + 6
  }

  /** The local form of check_posn: p against its children and grandchildren. */
  ghost predicate NearOk(s: seq<int>, n: nat, p: nat)
    requires p < n <= |s|
  {
    forall c: nat :: c < n && Near(p, c) ==> Ordered(IsMinLevel(p), s[p], s[c])
  }

  /** r is s with the cells j and k exchanged. */
  ghost predicate IsSwap(s: seq<int>, j: nat, k: nat, r: seq<int>)
    requires j < |s| && k < |s|
  {
    && |r| == |s| && r[j] == s[k] && r[k] == s[j]
    && forall m :: 0 <= m < |s| && m != j && m != k ==> r[m] == s[m]
  }

  /** The exchange of s[j] and s[k] (swap), described cell by cell; it
      permutes s. The body chooses any sequence with that description
      (SwapExists shows s[j := s[k]][k := s[j]] is one), so callers see
      only the contract and not the axioms of sequence update. */
  ghost function Swapped(s: seq<int>, j: nat, k: nat): (r: seq<int>)
    requires j < |s| && k < |s|
    ensures |r| == |s| && r[j] == s[k] && r[k] == s[j]
    ensures forall m :: 0 <= m < |s| && m != j && m != k ==> r[m] == s[m]
    ensures multiset(r) == multiset(s)
  {
    SwapExists(s, j, k);
    var r :| IsSwap(s, j, k, r) && multiset(r) == multiset(s);
    r
  }

  /** The pair of updates s[j := s[k]][k := s[j]] is such an exchange. */
  lemma SwapExists(s: seq<int>, j: nat, k: nat)
    requires j < |s| && k < |s|
    ensures exists r :: IsSwap(s, j, k, r) && multiset(r) == multiset(s)
  {
    var r := s[j := s[k]][k := s[j]];
    assert IsSwap(s, j, k, r);
  }

  lemma SwappedSym(s: seq<int>, j: nat, k: nat)
    requires j < |s| && k < |s|
    ensures Swapped(s, j, k) == Swapped(s, k, j)
  {
    var r, t := Swapped(s, j, k), Swapped(s, k, j);
    assert forall m :: 0 <= m < |s| ==> r[m] == t[m];
  }

  lemma OrderedTrans(b: bool, x: int, y: int, z: int)
    requires Ordered(b, x, y) && Ordered(b, y, z)
    ensures Ordered(b, x, z)
  {
  }

  lemma NearIsBelow(i: nat, c: nat)
    requires Near(i, c)
    ensures InSubtree(c, i) && c != i
    ensures IsMinLevel(c) == (IsMinLevel(i) == (c >= 4 * i + 3))
  {
    NearInSubtree(i, c);
    NearLevel(i, c);
  }

  /** A candidate of downheap lies strictly below i. */
  lemma NearInSubtree(i: nat, c: nat)
    requires Near(i, c)
    ensures InSubtree(c, i) && c != i
  {
    var l, r := 2 * i + 1, 2 * i + 2;
    assert (l - 1) / 2 == i && (r - 1) / 2 == i;
    assert InSubtree(l, i) && InSubtree(r, i);
    if c == 4 * i + 3 || c == 4 * i + 4 {
      assert (c - 1) / 2 == l;
    } else if c == 4 * i + 5 || c == 4 * i + 6 {
      assert (c - 1) / 2 == r;
    }
  }

  /** The children of i lie on the other kind of level, the grandchildren on
      i's own. */
  lemma NearLevel(i: nat, c: nat)
    requires Near(i, c)
    ensures IsMinLevel(c) == (IsMinLevel(i) == (c >= 4 * i + 3))
  {
    ChildLevels(i);
  }

  /** An exchange of two cells that are both strictly below p, or both
      outside p's subtree, keeps p's check. */
  lemma SwapKeepsNodeOk(s: seq<int>, n: nat, p: nat, j: nat, k: nat)
    requires p < n <= |s| && j < n && k < n
    requires p != j && p != k
    requires InSubtree(j, p) <==> InSubtree(k, p)
    requires NodeOk(s, n, p)
    ensures NodeOk(Swapped(s, j, k), n, p)
  {
    var r := Swapped(s, j, k);
    forall d: nat | d < n && InSubtree(d, p)
      ensures Ordered(IsMinLevel(p), r[p], r[d])
    {
      assert r[p] == s[p];
      if d == j {
        assert r[d] == s[k];
      } else if d == k {
        assert r[d] == s[j];
      }
    }
  }

  /** Exchanging two cells of the subtree of i0 keeps the check of every node
      outside that subtree. */
  lemma SwapInsideKeepsOutside(s: seq<int>, n: nat, i0: nat, j: nat, k: nat)
    requires n <= |s| && j < n && k < n
    requires InSubtree(j, i0) && InSubtree(k, i0)
    ensures forall p: nat :: p < n && !InSubtree(p, i0) && NodeOk(s, n, p) ==> NodeOk(Swapped(s, j, k), n, p)
  {
    forall p: nat | p < n && !InSubtree(p, i0) && NodeOk(s, n, p)
      ensures NodeOk(Swapped(s, j, k), n, p)
    {
      SameSide(p, i0, j);
      SameSide(p, i0, k);
      SwapKeepsNodeOk(s, n, p, j, k);
    }
  }

  /** A node whose proper subtree is empty below n passes its check. */
  lemma LeafOk(s: seq<int>, n: nat, p: nat)
    requires p < n <= |s| && n <= 2 * p + 1
    ensures NodeOk(s, n, p)
  {
    forall d: nat | d < n && InSubtree(d, p)
      ensures d == p
    {
      SubtreeBelow(d, p);
    }
  }

  /** If v is ordered against the children and grandchildren of i, and the
      grandchildren pass their checks, then v is ordered against the whole
      proper subtree of i. */
  lemma NearBoundsSubtree(s: seq<int>, n: nat, i: nat, v: int)
    requires i < n <= |s|
    requires forall c: nat :: c < n && Near(i, c) ==> Ordered(IsMinLevel(i), v, s[c])
    requires forall g: nat :: 4 * i + 3 <= g <= 4 * i + 6 && g < n ==> NodeOk(s, n, g)
    ensures forall d: nat :: d < n && InSubtree(d, i) && d != i ==> Ordered(IsMinLevel(i), v, s[d])
  {
    var b := IsMinLevel(i);
    ChildLevels(i);
    forall d: nat | d < n && InSubtree(d, i) && d != i
      ensures Ordered(b, v, s[d])
    {
      SubtreeChild(d, i);
      var c := if InSubtree(d, 2 * i + 1) then 2 * i + 1 else 2 * i + 2;
      SubtreeBelow(d, c);
      assert Near(i, c);
      if d != c {
        SubtreeChild(d, c);
        ChildLevels(c);
        var g := if InSubtree(d, 2 * c + 1) then 2 * c + 1 else 2 * c + 2;
        SubtreeBelow(d, g);
        assert Near(i, g) && g < n;
        assert NodeOk(s, n, g);
        OrderedTrans(b, v, s[g], s[d]);
      }
    }
  }

  /** The local check from p down implies the subtree check at p. */
  lemma {:induction false} NearImpliesNodeOk(s: seq<int>, n: nat, p: nat)
    requires p < n <= |s|
    requires forall q: nat :: p <= q < n ==> NearOk(s, n, q)
    ensures NodeOk(s, n, p)
    decreases n - p
  {
    forall g: nat | 4 * p + 3 <= g <= 4 * p + 6 && g < n
      ensures NodeOk(s, n, g)
    {
      NearImpliesNodeOk(s, n, g);
    }
    assert NearOk(s, n, p);
    NearBoundsSubtree(s, n, p, s[p]);
  }

  /** check_heap's subtree walk is equivalent to checking every node against
      its children and grandchildren only. */
  lemma HeapIffLocal(s: seq<int>, n: nat)
    requires n <= |s|
    ensures MinMaxOrdered(s, n) <==> forall p: nat :: p < n ==> NearOk(s, n, p)
  {
    if MinMaxOrdered(s, n) {
      forall p: nat, c: nat | p < n && c < n && Near(p, c)
        ensures Ordered(IsMinLevel(p), s[p], s[c])
      {
        NearIsBelow(p, c);
        assert NodeOk(s, n, p);
      }
    }
    if forall p: nat :: p < n ==> NearOk(s, n, p) {
      forall p: nat | p < n
        ensures NodeOk(s, n, p)
      {
        NearImpliesNodeOk(s, n, p);
      }
    }
  }

  /** A heap stays a heap when its range shrinks. */
  lemma ShrinkKeepsHeap(s: seq<int>, n: nat, m: nat)
    requires m <= n <= |s| && MinMaxOrdered(s, n)
    ensures MinMaxOrdered(s, m)
  {
    forall p: nat | p < m
      ensures NodeOk(s, m, p)
    {
      assert NodeOk(s, n, p);
    }
  }

  /** The root of a heap holds its minimum. */
  lemma MinAtRoot(s: seq<int>, n: nat)
    requires 1 <= n <= |s| && MinMaxOrdered(s, n)
    ensures forall k :: 0 <= k < n ==> s[0] <= s[k]
    ensures forall x | x in s[..n] :: s[0] <= x
  {
    assert NodeOk(s, n, 0);
    forall k | 0 <= k < n
      ensures s[0] <= s[k]
    {
      AllUnderRoot(k);
    }
  }

  /** store_max's choice of the maximum's position with the new end e
      (the old size is e + 1): the left child of the root, unless the right
      child is inside the range and strictly larger. */
  function MaxChildIndex(s: seq<int>, e: nat): (r: nat)
    requires 1 <= e < |s|
    ensures r == 1 || r == 2
    ensures r <= e
    ensures e > 1 ==> s[3 - r] <= s[r]
    ensures r == 2 ==> s[1] < s[2]
  {
    if e > 1 && s[1] < s[2] then 2 else 1
  }

  /** The maximum of a heap of at least two elements is the larger child of
      the root, the left one on a tie. */
  lemma MaxAtRootChild(s: seq<int>, n: nat)
    requires 2 <= n <= |s| && MinMaxOrdered(s, n)
    ensures forall k :: 0 <= k < n ==> s[k] <= s[MaxChildIndex(s, n - 1)]
    ensures forall x | x in s[..n] :: x <= s[MaxChildIndex(s, n - 1)]
  {
    var r := MaxChildIndex(s, n - 1);
    assert NodeOk(s, n, 0) && NodeOk(s, n, 1);
    assert InSubtree(1, 0);
    ChildLevels(0);
    forall k | 0 <= k < n
      ensures s[k] <= s[r]
    {
      if k > 0 {
        AllUnderRoot(k);
        SubtreeChild(k, 0);
        if InSubtree(k, 2) {
          SubtreeBelow(k, 2);
          assert NodeOk(s, n, 2);
        }
      }
    }
  }
}
