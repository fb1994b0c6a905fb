/** One step of downheap and of upheap, stated on sequences: what each step
    keeps of the heap property, so that the loops of the class need only
    carry the invariant from step to step. */
module HeapRepair {
  import opened HeapTree
  import opened HeapOrder

  /** Every node of the subtree of i0, except the cursor i, passes its check:
      the state downheap keeps while it sifts a value down from i0. */
  ghost predicate BelowOk(s: seq<int>, n: nat, i0: nat, i: nat)
    requires n <= |s|
  {
    forall p: nat :: p < n && InSubtree(p, i0) && p != i ==> NodeOk(s, n, p)
  }

  /** m is the position among the children and grandchildren of i (below n)
      whose value is most extreme for i's level. */
  ghost predicate Extreme(s: seq<int>, n: nat, i: nat, m: nat)
    requires n <= |s|
  {
    m < n && Near(i, m)
    && forall c: nat :: c < n && Near(i, c) ==> Ordered(IsMinLevel(i), s[m], s[c])
  }

  /** The state upheap keeps while it sifts a value up to the cursor i: every
      pair (ancestor, descendant) is ordered except the pairs (p, i) for the
      proper ancestors p of i, and the proper ancestors of the other parity
      are ordered against i too. */
  ghost predicate AboveOk(s: seq<int>, n: nat, i: nat)
    requires i < n <= |s|
  {
    && (forall p: nat :: p < n ==> NodeOkExcept(s, n, p, i))
    && NodeOk(s, n, i)
    && (forall q: nat :: q <= i && InSubtree(i, q) && IsMinLevel(q) != IsMinLevel(i) ==>
          Ordered(IsMinLevel(q), s[q], s[i]))
  }

  lemma NotBetter(b: bool, x: int, y: int)
    ensures !Better(b, x, y) <==> Ordered(b, y, x)
    ensures Better(b, x, y) ==> Ordered(!b, y, x) && Ordered(b, x, y)
  {
  }

  lemma GrandchildBelow(i0: nat, i: nat, m: nat)
    requires InSubtree(i, i0) && Near(i, m)
    ensures InSubtree(m, i0) && m != i
  {
    NearIsBelow(i, m);
    SubtreeTrans(m, i, i0);
  }

  /** A node strictly below i other than the child c (and the grandchild m
      below c) has neither i, c nor m in its subtree. */
  lemma OffPath(i: nat, c: nat, m: nat, p: nat)
    requires c == 2 * i + 1 || c == 2 * i + 2
    requires m == 2 * c + 1 || m == 2 * c + 2 || m == c
    requires InSubtree(p, i) && p != i && p != c && p != m
    ensures !InSubtree(i, p) && !InSubtree(c, p) && !InSubtree(m, p)
  {
    SubtreeBelow(p, i);
    if InSubtree(i, p) {
      SubtreeBelow(i, p);
    }
    if InSubtree(c, p) {
      SubtreeBelow(c, p);
    }
  }

  /** Exchanges among i, its child c and c's child m keep the check of every
      other node of the subtree of i0 (and of everything outside it). */
  lemma SwapOnPathKeeps(s: seq<int>, n: nat, i0: nat, i: nat, c: nat, m: nat, j: nat, k: nat)
    requires n <= |s| && InSubtree(i, i0)
    requires c == 2 * i + 1 || c == 2 * i + 2
    requires m == 2 * c + 1 || m == 2 * c + 2 || m == c
    requires j in {i, c, m} && k in {i, c, m} && j < n && k < n
    ensures forall p: nat :: p < n && InSubtree(p, i0) && p != i && p != c && p != m && NodeOk(s, n, p) ==>
              NodeOk(Swapped(s, j, k), n, p)
  {
    assert InSubtree(c, i) && InSubtree(m, c);
    SubtreeTrans(m, c, i);
    forall p: nat | p < n && InSubtree(p, i0) && p != i && p != c && p != m && NodeOk(s, n, p)
      ensures NodeOk(Swapped(s, j, k), n, p)
    {
      if InSubtree(p, i) {
        OffPath(i, c, m, p);
      } else {
        SameSide(p, i, m);
        SameSide(p, i, c);
      }
      SwapKeepsNodeOk(s, n, p, j, k);
    }
  }

  /** The value moved up to i bounds the subtree of i after the exchange. */
  lemma RaisedTopOk(s: seq<int>, n: nat, i: nat, c: nat, m: nat, r: seq<int>)
    requires i < n <= |s| && c < n && m < n
    requires (c == 2 * i + 1 || c == 2 * i + 2) && (m == 2 * c + 1 || m == 2 * c + 2 || m == c)
    requires forall d: nat :: d < n && InSubtree(d, i) && d != i ==> Ordered(IsMinLevel(i), s[m], s[d])
    requires Ordered(IsMinLevel(i), s[m], s[i])
    requires |r| == |s| && r[i] == s[m]
    requires forall d :: 0 <= d < |s| && d != i && d != c && d != m ==> r[d] == s[d]
    requires r[c] in {s[i], s[c], s[m]} && r[m] in {s[i], s[c], s[m]}
    ensures NodeOk(r, n, i)
  {
    assert InSubtree(c, i) && InSubtree(m, c);
    SubtreeTrans(m, c, i);
  }

  /** The child c keeps its (opposite-level) check when it receives s[i],
      provided it lost to s[i] under i's ordering. */
  lemma LoweredChildOk(s: seq<int>, n: nat, i: nat, c: nat, r: seq<int>)
    requires i < n <= |s| && c < n && (c == 2 * i + 1 || c == 2 * i + 2)
    requires NodeOk(s, n, c) && IsMinLevel(c) == !IsMinLevel(i)
    requires Better(IsMinLevel(i), s[c], s[i])
    requires r == Swapped(s, i, c)
    ensures NodeOk(r, n, c)
  {
    var b := IsMinLevel(i);
    NotBetter(b, s[c], s[i]);
    forall d: nat | d < n && InSubtree(d, c)
      ensures Ordered(!b, r[c], r[d])
    {
      SubtreeBelow(d, c);
      OrderedTrans(!b, s[i], s[c], s[d]);
    }
  }

  /** The grandchild m's parent c keeps its check after the two exchanges. */
  lemma GrandParentOk(s: seq<int>, n: nat, i: nat, c: nat, m: nat, s1: seq<int>, r: seq<int>)
    requires i < n <= |s| && c < n && m < n
    requires (c == 2 * i + 1 || c == 2 * i + 2) && (m == 2 * c + 1 || m == 2 * c + 2)
    requires NodeOk(s, n, c) && IsMinLevel(c) == !IsMinLevel(i)
    requires s1 == Swapped(s, i, m)
    requires r == if Better(IsMinLevel(i), s1[c], s1[m]) then Swapped(s1, m, c) else s1
    ensures NodeOk(r, n, c)
  {
    var b := IsMinLevel(i);
    NotBetter(b, s[c], s[i]);
    forall d: nat | d < n && InSubtree(d, c)
      ensures Ordered(!b, r[c], r[d])
    {
      SubtreeBelow(d, c);
      if Better(b, s1[c], s1[m]) && d != m && d != c {
        OrderedTrans(!b, s[i], s[c], s[d]);
      }
    }
  }

  /** The grandchildren of i pass their checks when i's subtree, except i,
      does. */
  lemma GrandchildrenOk(s: seq<int>, n: nat, i0: nat, i: nat)
    requires n <= |s| && InSubtree(i, i0) && BelowOk(s, n, i0, i)
    ensures forall g: nat :: 4 * i + 3 <= g <= 4 * i + 6 && g < n ==> NodeOk(s, n, g)
  {
    forall g: nat | 4 * i + 3 <= g <= 4 * i + 6 && g < n
      ensures NodeOk(s, n, g)
    {
      GrandchildBelow(i0, i, g);
    }
  }

  /** downheap, when the most extreme candidate is a child c: after the
      conditional exchange of i and c the whole subtree of i0 is ordered. */
  lemma DownChildStep(s: seq<int>, n: nat, i0: nat, i: nat, c: nat, r: seq<int>)
    requires i < n <= |s| && InSubtree(i, i0)
    requires BelowOk(s, n, i0, i)
    requires (c == 2 * i + 1 || c == 2 * i + 2) && Extreme(s, n, i, c)
    requires r == if Better(IsMinLevel(i), s[c], s[i]) then Swapped(s, i, c) else s
    ensures forall p: nat :: p < n && InSubtree(p, i0) ==> NodeOk(r, n, p)
  {
    if Better(IsMinLevel(i), s[c], s[i]) {
      DownChildSwap(s, n, i0, i, c);
    } else {
      DownChildStay(s, n, i0, i, c);
    }
  }

  /** The child c beats i: after their exchange the subtree of i0 is ordered. */
  lemma DownChildSwap(s: seq<int>, n: nat, i0: nat, i: nat, c: nat)
    requires i < n <= |s| && InSubtree(i, i0)
    requires BelowOk(s, n, i0, i)
    requires (c == 2 * i + 1 || c == 2 * i + 2) && Extreme(s, n, i, c)
    requires Better(IsMinLevel(i), s[c], s[i])
    ensures forall p: nat :: p < n && InSubtree(p, i0) ==> NodeOk(Swapped(s, i, c), n, p)
  {
    var r := Swapped(s, i, c);
    forall p: nat | p < n && InSubtree(p, i0)
      ensures NodeOk(r, n, p)
    {
      if p == i {
        ChildSwapTop(s, n, i0, i, c);
      } else if p == c {
        ChildLevels(i);
        GrandchildBelow(i0, i, c);
        LoweredChildOk(s, n, i, c, r);
      } else {
        SwapOnPathKeeps(s, n, i0, i, c, c, i, c);
      }
    }
  }

  /** The child c beats i: after their exchange, i passes its check. */
  lemma ChildSwapTop(s: seq<int>, n: nat, i0: nat, i: nat, c: nat)
    requires i < n <= |s| && InSubtree(i, i0)
    requires BelowOk(s, n, i0, i)
    requires (c == 2 * i + 1 || c == 2 * i + 2) && Extreme(s, n, i, c)
    requires Better(IsMinLevel(i), s[c], s[i])
    ensures NodeOk(Swapped(s, i, c), n, i)
  {
    GrandchildrenOk(s, n, i0, i);
    NotBetter(IsMinLevel(i), s[c], s[i]);
    NearBoundsSubtree(s, n, i, s[c]);
    RaisedTopOk(s, n, i, c, c, Swapped(s, i, c));
  }

  /** The child c does not beat i: the subtree of i0 is already ordered. */
  lemma DownChildStay(s: seq<int>, n: nat, i0: nat, i: nat, c: nat)
    requires i < n <= |s| && InSubtree(i, i0)
    requires BelowOk(s, n, i0, i)
    requires (c == 2 * i + 1 || c == 2 * i + 2) && Extreme(s, n, i, c)
    requires !Better(IsMinLevel(i), s[c], s[i])
    ensures forall p: nat :: p < n && InSubtree(p, i0) ==> NodeOk(s, n, p)
  {
    var b := IsMinLevel(i);
    GrandchildrenOk(s, n, i0, i);
    NotBetter(b, s[c], s[i]);
    forall cc: nat | cc < n && Near(i, cc)
      ensures Ordered(b, s[i], s[cc])
    {
      OrderedTrans(b, s[i], s[c], s[cc]);
    }
    NearBoundsSubtree(s, n, i, s[i]);
  }

  /** downheap, when the most extreme candidate is a grandchild m that beats
      s[i]: after exchanging i and m, and then m and its parent if the parent
      beats the moved value, the subtree of i0 is ordered everywhere except
      at the new cursor m. */
  lemma DownGrandStep(s: seq<int>, n: nat, i0: nat, i: nat, m: nat, s1: seq<int>, r: seq<int>)
    requires i < n <= |s| && InSubtree(i, i0)
    requires BelowOk(s, n, i0, i)
    requires 4 * i + 3 <= m <= 4 * i + 6 && Extreme(s, n, i, m)
    requires Better(IsMinLevel(i), s[m], s[i])
    requires s1 == Swapped(s, i, m)
    requires r == if Better(IsMinLevel(i), s1[(m - 1) / 2], s1[m]) then Swapped(s1, m, (m - 1) / 2) else s1
    ensures InSubtree(m, i0) && IsMinLevel(m) == IsMinLevel(i)
    ensures BelowOk(r, n, i0, m)
  {
    var b := IsMinLevel(i);
    var c := (m - 1) / 2;
    assert (c == 2 * i + 1 || c == 2 * i + 2) && (m == 2 * c + 1 || m == 2 * c + 2);
    assert Near(i, c) && c < n;
    ParentLevel(m);
    ParentLevel(c);
    assert (c - 1) / 2 == i;
    GrandchildBelow(i0, i, m);
    GrandchildBelow(i0, i, c);
    GrandchildrenOk(s, n, i0, i);
    NearBoundsSubtree(s, n, i, s[m]);
    NotBetter(b, s[m], s[i]);
    assert NodeOk(s, n, c);
    if Better(b, s1[c], s1[m]) {
      assert r == Swapped(s1, m, c);
      assert r[i] == s[m] && r[c] == s[i] && r[m] == s[c];
    } else {
      assert r == s1;
      assert r[i] == s[m] && r[c] == s[c] && r[m] == s[i];
    }
    RaisedTopOk(s, n, i, c, m, r);
    GrandParentOk(s, n, i, c, m, s1, r);
    SwapOnPathKeeps(s, n, i0, i, c, m, i, m);
    SwapOnPathKeeps(s1, n, i0, i, c, m, m, c);
    forall p: nat | p < n && InSubtree(p, i0) && p != m
      ensures NodeOk(r, n, p)
    {
      if p != i && p != c {
        assert NodeOk(s, n, p);
        assert NodeOk(s1, n, p);
      }
    }
  }

  /** upheap's first comparison, when the new last element does not beat its
      parent: the sift continues from i itself. */
  lemma UpStartStay(s: seq<int>, n: nat)
    requires 2 <= n <= |s| && MinMaxOrdered(s, n - 1)
    requires !Better(!IsMinLevel(n - 1), s[n - 1], s[(n - 2) / 2])
    ensures AboveOk(s, n, n - 1)
  {
    var i := n - 1;
    var pa := (i - 1) / 2;
    var b := IsMinLevel(i);
    assert InSubtree(i, pa);
    NotBetter(!b, s[i], s[pa]);
    forall p: nat | p < n
      ensures NodeOkExcept(s, n, p, i)
    {
      if p < i {
        assert NodeOk(s, n - 1, p);
      } else {
        LeafOk(s, n, p);
      }
    }
    LeafOk(s, n, i);
    forall q: nat | q <= i && InSubtree(i, q) && IsMinLevel(q) != b
      ensures Ordered(IsMinLevel(q), s[q], s[i])
    {
      if q != pa {
        assert InSubtree(pa, q);
        assert NodeOk(s, n - 1, q);
        OrderedTrans(!b, s[q], s[pa], s[i]);
      }
    }
  }

  /** upheap's first comparison, when the new last element beats its parent
      under the parent's ordering: after the exchange the sift continues from
      the parent. */
  lemma UpStartSwap(s: seq<int>, n: nat)
    requires 2 <= n <= |s| && MinMaxOrdered(s, n - 1)
    requires Better(!IsMinLevel(n - 1), s[n - 1], s[(n - 2) / 2])
    ensures AboveOk(Swapped(s, n - 1, (n - 2) / 2), n, (n - 2) / 2)
  {
    var i := n - 1;
    var pa := (i - 1) / 2;
    var b := IsMinLevel(i);
    var r := Swapped(s, i, pa);
    ParentLevel(i);
    assert InSubtree(i, pa);
    NotBetter(!b, s[i], s[pa]);
    assert NodeOk(s, n - 1, pa);
    UpStartSwapPairs(s, n, pa, r);
    assert NodeOk(r, n, pa) by {
      assert NodeOkExcept(r, n, pa, pa);
    }
    forall q: nat | q <= pa && InSubtree(pa, q) && IsMinLevel(q) != IsMinLevel(pa)
      ensures Ordered(IsMinLevel(q), r[q], r[pa])
    {
      assert NodeOk(s, n - 1, q);
      OrderedTrans(b, s[q], s[pa], s[i]);
    }
  }

  lemma UpStartSwapPairs(s: seq<int>, n: nat, pa: nat, r: seq<int>)
    requires 2 <= n <= |s| && MinMaxOrdered(s, n - 1)
    requires pa == (n - 2) / 2 && Better(!IsMinLevel(n - 1), s[n - 1], s[pa])
    requires r == Swapped(s, n - 1, pa)
    ensures forall p: nat :: p < n ==> NodeOkExcept(r, n, p, pa)
  {
    var i := n - 1;
    assert InSubtree(i, pa);
    forall p: nat | p < n
      ensures NodeOkExcept(r, n, p, pa)
    {
      if p == i {
        LeafOk(r, n, p);
      } else if p == pa {
        UpStartSwapParent(s, n, pa, r);
      } else {
        UpStartSwapOther(s, n, pa, r, p);
      }
    }
  }

  lemma UpStartSwapParent(s: seq<int>, n: nat, pa: nat, r: seq<int>)
    requires 2 <= n <= |s| && MinMaxOrdered(s, n - 1)
    requires pa == (n - 2) / 2 && Better(!IsMinLevel(n - 1), s[n - 1], s[pa])
    requires r == Swapped(s, n - 1, pa)
    ensures NodeOk(r, n, pa)
  {
    var i := n - 1;
    var b := IsMinLevel(i);
    ParentLevel(i);
    NotBetter(!b, s[i], s[pa]);
    assert NodeOk(s, n - 1, pa);
    forall d: nat | d < n && InSubtree(d, pa) && d != pa
      ensures Ordered(!b, r[pa], r[d])
    {
      if d != i {
        OrderedTrans(!b, s[i], s[pa], s[d]);
      }
    }
  }

  lemma UpStartSwapOther(s: seq<int>, n: nat, pa: nat, r: seq<int>, p: nat)
    requires 2 <= n <= |s| && MinMaxOrdered(s, n - 1)
    requires pa == (n - 2) / 2
    requires r == Swapped(s, n - 1, pa)
    requires p < n - 1 && p != pa
    ensures NodeOkExcept(r, n, p, pa)
  {
    var i := n - 1;
    assert NodeOk(s, n - 1, p);
    forall d: nat | d < n && InSubtree(d, p) && d != pa
      ensures Ordered(IsMinLevel(p), r[p], r[d])
    {
      if d == i {
        assert InSubtree(pa, p);
      }
    }
  }

  /** One node's check after upheap's exchange of the cursor i with its
      grandparent g, for r the exchanged sequence given pointwise. */
  lemma UpStepNode(s: seq<int>, r: seq<int>, n: nat, i: nat, p: nat)
    requires 3 <= i < n <= |s| && AboveOk(s, n, i) && p < n
    requires Better(IsMinLevel(i), s[i], s[Grandparent(i)])
    requires |r| == |s| && r[i] == s[Grandparent(i)] && r[Grandparent(i)] == s[i]
    requires forall m :: 0 <= m < |s| && m != i && m != Grandparent(i) ==> r[m] == s[m]
    ensures NodeOkExcept(r, n, p, Grandparent(i))
  {
    var b := IsMinLevel(i);
    var pa := (i - 1) / 2;
    var g := (pa - 1) / 2;
    assert InSubtree(i, pa) && InSubtree(pa, g) && InSubtree(i, g);
    ParentLevel(i);
    ParentLevel(pa);
    NotBetter(b, s[i], s[g]);
    if p == g {
      assert NodeOkExcept(s, n, g, i);
      forall d: nat | d < n && InSubtree(d, g) && d != g
        ensures Ordered(b, r[g], r[d])
      {
        if d != i {
          OrderedTrans(b, s[i], s[g], s[d]);
        }
      }
    } else if p == i {
      assert NodeOk(s, n, i);
      forall d: nat | d < n && InSubtree(d, i) && d != i
        ensures Ordered(b, r[i], r[d])
      {
        SubtreeBelow(d, i);
        SubtreeTrans(d, i, g);
        assert NodeOkExcept(s, n, g, i);
        assert r[d] == s[d];
      }
    } else if p == pa {
      assert NodeOkExcept(s, n, pa, i);
      forall d: nat | d < n && InSubtree(d, pa) && d != g
        ensures Ordered(!b, r[pa], r[d])
      {
        if d == i {
          assert NodeOkExcept(s, n, g, i);
          assert Ordered(b, s[g], s[pa]);
        }
      }
    } else {
      assert NodeOkExcept(s, n, p, i);
      forall d: nat | d < n && InSubtree(d, p) && d != g
        ensures Ordered(IsMinLevel(p), r[p], r[d])
      {
        if d == i {
          SubtreeBelow(i, p);
          assert InSubtree(pa, p);
          SubtreeBelow(pa, p);
          assert InSubtree(g, p);
        }
      }
    }
  }

  /** One iteration of upheap's loop: the cursor i beats its grandparent g
      under its own level's ordering, and they are exchanged. */
  lemma UpStep(s: seq<int>, n: nat, i: nat)
    requires 3 <= i < n <= |s| && AboveOk(s, n, i)
    requires Better(IsMinLevel(i), s[i], s[Grandparent(i)])
    ensures AboveOk(Swapped(s, i, Grandparent(i)), n, Grandparent(i))
    ensures IsMinLevel(Grandparent(i)) == IsMinLevel(i)
  {
    var b := IsMinLevel(i);
    var pa := (i - 1) / 2;
    var g := (pa - 1) / 2;
    var r := Swapped(s, i, g);
    assert InSubtree(i, pa) && InSubtree(pa, g);
    ParentLevel(i);
    ParentLevel(pa);
    forall p: nat | p < n
      ensures NodeOkExcept(r, n, p, g)
    {
      UpStepNode(s, r, n, i, p);
    }
    assert NodeOk(r, n, g) by {
      assert NodeOkExcept(r, n, g, g);
    }
    forall q: nat | q <= g && InSubtree(g, q) && IsMinLevel(q) != b
      ensures Ordered(IsMinLevel(q), r[q], r[g])
    {
      SubtreeTrans(i, g, q);
    }
  }

  /** upheap's loop stops when the cursor has no grandparent or does not beat
      it: then every pair is ordered. */
  lemma UpExit(s: seq<int>, n: nat, i: nat)
    requires i < n <= |s| && AboveOk(s, n, i)
    requires i >= 3 ==> !Better(IsMinLevel(i), s[i], s[Grandparent(i)])
    ensures MinMaxOrdered(s, n)
  {
    forall p: nat | p < n
      ensures NodeOk(s, n, p)
    {
      if p != i {
        UpExitNode(s, n, i, p);
      }
    }
  }

  /** At that exit, a node p other than the cursor passes its check: the
      only pair AboveOk leaves open, (p, i) for an ancestor p of i on i's
      kind of level, is closed through the grandparent. */
  lemma UpExitNode(s: seq<int>, n: nat, i: nat, p: nat)
    requires i < n <= |s| && AboveOk(s, n, i) && p < n && p != i
    requires i >= 3 ==> !Better(IsMinLevel(i), s[i], s[Grandparent(i)])
    ensures NodeOk(s, n, p)
  {
    var b := IsMinLevel(i);
    assert NodeOkExcept(s, n, p, i);
    if InSubtree(i, p) {
      SubtreeBelow(i, p);
      var pa := Parent(i);
      assert InSubtree(pa, p);
      if IsMinLevel(p) == b {
        ParentLevel(i);
        assert p != pa;
        SubtreeBelow(pa, p);
        var g := Parent(pa);
        assert g == Grandparent(i);
        assert InSubtree(g, p);
        SubtreeBelow(g, p);
        NotBetter(b, s[i], s[g]);
        if p != g {
          OrderedTrans(b, s[p], s[g], s[i]);
        }
      }
    }
  }

  /** A node's check carries over to a smaller range when the values of its
      subtree inside that range are unchanged. */
  lemma NodeOkTransfer(s: seq<int>, t: seq<int>, n: nat, m: nat, p: nat)
    requires p < m <= n <= |s| && m <= |t|
    requires NodeOk(s, n, p)
    requires forall d: nat :: d < m && InSubtree(d, p) ==> t[d] == s[d]
    ensures NodeOk(t, m, p)
  {
    assert t[p] == s[p];
  }

  /** store_min before its downheap: with the root exchanged for the last
      element and the range shrunk by one, every node but the root passes. */
  lemma StoreMinPrepared(s: seq<int>, n: nat, e: nat, t: seq<int>)
    requires 2 <= n <= |s| && MinMaxOrdered(s, n) && e == n - 1
    requires t == Swapped(s, 0, e)
    ensures forall p: nat :: p < e && p != 0 ==> NodeOk(t, e, p)
  {
    forall p: nat | p < e && p != 0
      ensures NodeOk(t, e, p)
    {
      forall d: nat | d < e && InSubtree(d, p)
        ensures t[d] == s[d]
      {
        SubtreeBelow(d, p);
      }
      NodeOkTransfer(s, t, n, e, p);
    }
  }

  /** store_max before its downheap: with the larger root child imax
      exchanged for the last element and the range shrunk by one, every node
      but imax passes its check. */
  lemma StoreMaxPrepared(s: seq<int>, n: nat, e: nat, imax: nat, t: seq<int>)
    requires 2 <= n <= |s| && MinMaxOrdered(s, n) && e == n - 1
    requires (imax == 1 || imax == 2) && imax < e
    requires t == Swapped(s, imax, e)
    ensures forall p: nat :: p < e && p != imax ==> NodeOk(t, e, p)
  {
    MinAtRoot(s, n);
    forall p: nat | p < e && p != imax
      ensures NodeOk(t, e, p)
    {
      if p == 0 {
        forall d: nat | d < e && InSubtree(d, 0)
          ensures t[0] <= t[d]
        {
        }
      } else {
        assert !InSubtree(imax, p) by {
          if InSubtree(imax, p) {
            SubtreeBelow(imax, p);
          }
        }
        NodeOkTransfer(s, t, n, e, p);
      }
    }
  }
}
