/** The loop states of downheap and upheap relative to the array on entry,
    and one lemma per way a loop iteration or the loop itself can end. */
module HeapSift {
  import opened HeapTree
  import opened HeapOrder
  import opened HeapRepair

  /** What downheap(i0) keeps from entry state s0 to the current state s:
      a permutation that moves only cells of the subtree of i0 inside
      [0, n), and keeps the check of every node outside that subtree. */
  ghost predicate DownFrame(s0: seq<int>, s: seq<int>, n: nat, i0: nat)
    requires n <= |s0|
  {
    && |s| == |s0|
    && multiset(s) == multiset(s0)
    && (forall k :: 0 <= k < |s| && !(k < n && InSubtree(k, i0)) ==> s[k] == s0[k])
    && (forall p: nat :: p < n && !InSubtree(p, i0) && NodeOk(s0, n, p) ==> NodeOk(s, n, p))
  }

  /** downheap leaves the cells from n on alone. */
  lemma DownFrameTail(s0: seq<int>, s: seq<int>, n: nat, i0: nat)
    requires n <= |s0| && DownFrame(s0, s, n, i0)
    ensures s[n..] == s0[n..]
  {
    assert forall k :: n <= k < |s| ==> s[k] == s0[k];
  }

  /** The loop state of downheap(i0) with the cursor at i; below records
      whether the subtree of i0 was a heap except at i0 on entry. */
  ghost predicate DownState(s0: seq<int>, s: seq<int>, n: nat, i0: nat, i: nat, below: bool)
  {
    && n <= |s0|
    && DownFrame(s0, s, n, i0)
    && i < n && InSubtree(i, i0)
    && (below ==> BelowOk(s, n, i0, i))
  }

  /** downheap(i0) on return. */
  ghost predicate DownDone(s0: seq<int>, s: seq<int>, n: nat, i0: nat, below: bool)
  {
    && n <= |s0|
    && DownFrame(s0, s, n, i0)
    && (below ==> forall p: nat :: p < n && InSubtree(p, i0) ==> NodeOk(s, n, p))
  }

  lemma DownFrameStart(s0: seq<int>, n: nat, i0: nat)
    requires n <= |s0|
    ensures DownFrame(s0, s0, n, i0)
  {
  }

  /** An exchange of two cells of the subtree of i0 keeps the frame. */
  lemma DownFrameSwap(s0: seq<int>, s: seq<int>, n: nat, i0: nat, j: nat, k: nat)
    requires n <= |s0| && DownFrame(s0, s, n, i0)
    requires j < n && k < n && InSubtree(j, i0) && InSubtree(k, i0)
    ensures DownFrame(s0, Swapped(s, j, k), n, i0)
  {
    SwapInsideKeepsOutside(s, n, i0, j, k);
  }

  /** The most extreme candidate is a child c: after the conditional exchange
      downheap returns with the subtree of i0 ordered. */
  lemma DownChildLast(s0: seq<int>, s: seq<int>, n: nat, i0: nat, i: nat, c: nat, r: seq<int>, below: bool)
    requires DownState(s0, s, n, i0, i, below)
    requires (c == 2 * i + 1 || c == 2 * i + 2) && Extreme(s, n, i, c)
    requires r == if Better(IsMinLevel(i), s[c], s[i]) then Swapped(s, i, c) else s
    ensures DownDone(s0, r, n, i0, below)
  {
    GrandchildBelow(i0, i, c);
    if Better(IsMinLevel(i), s[c], s[i]) {
      DownFrameSwap(s0, s, n, i0, i, c);
    }
    if below {
      DownChildStep(s, n, i0, i, c, r);
    }
  }

  /** The most extreme candidate is a grandchild m that beats i: after the
      exchange of i and m and the conditional exchange of m with its parent,
      the cursor moves to m, which lies on a level of the same kind as i. */
  lemma DownGrandNext(s0: seq<int>, s: seq<int>, n: nat, i0: nat, i: nat, m: nat, s1: seq<int>, c: nat,
                      r: seq<int>, below: bool)
    requires DownState(s0, s, n, i0, i, below)
    requires 4 * i + 3 <= m <= 4 * i + 6 && Extreme(s, n, i, m)
    requires Better(IsMinLevel(i), s[m], s[i])
    requires s1 == Swapped(s, i, m) && c == (m - 1) / 2
    requires r == if Better(IsMinLevel(i), s1[c], s1[m]) then Swapped(s1, m, c) else s1
    ensures DownState(s0, r, n, i0, m, below)
    ensures IsMinLevel(m) == IsMinLevel(i)
  {
    NearIsBelow(i, m);
    GrandchildBelow(i0, i, m);
    assert Near(i, c);
    GrandchildBelow(i0, i, c);
    DownFrameSwap(s0, s, n, i0, i, m);
    if Better(IsMinLevel(i), s1[c], s1[m]) {
      DownFrameSwap(s0, s1, n, i0, m, c);
    }
    if below {
      DownGrandStep(s, n, i0, i, m, s1, r);
    }
  }

  /** The most extreme candidate is a grandchild that does not beat i:
      downheap returns with the subtree of i0 ordered. */
  lemma DownGrandStay(s0: seq<int>, s: seq<int>, n: nat, i0: nat, i: nat, m: nat, below: bool)
    requires DownState(s0, s, n, i0, i, below)
    requires 4 * i + 3 <= m && Extreme(s, n, i, m)
    requires !Better(IsMinLevel(i), s[m], s[i])
    ensures DownDone(s0, s, n, i0, below)
  {
    if below {
      var b := IsMinLevel(i);
      NotBetter(b, s[m], s[i]);
      forall c: nat | c < n && Near(i, c)
        ensures Ordered(b, s[i], s[c])
      {
        OrderedTrans(b, s[i], s[m], s[c]);
      }
      GrandchildrenOk(s, n, i0, i);
      NearBoundsSubtree(s, n, i, s[i]);
      assert NodeOk(s, n, i);
    }
  }

  /** The cursor has no child inside the range: downheap returns with the
      subtree of i0 ordered. */
  lemma DownLeaf(s0: seq<int>, s: seq<int>, n: nat, i0: nat, i: nat, below: bool)
    requires DownState(s0, s, n, i0, i, below)
    requires n <= 2 * i + 1
    ensures DownDone(s0, s, n, i0, below)
  {
    if below {
      LeafOk(s, n, i);
    }
  }

  /** s differs from s0 at most on the ancestor chain of d (d included). */
  ghost predicate ChainFrame(s0: seq<int>, s: seq<int>, d: nat)
  {
    && |s| == |s0|
    && forall k :: 0 <= k < |s| && !InSubtree(d, k) ==> s[k] == s0[k]
  }

  /** What upheap keeps from entry state s0 to the current state s with the
      cursor at i on the ancestor chain of the new element n - 1; below
      records whether [0, n - 1) was a heap on entry. */
  ghost predicate UpState(s0: seq<int>, s: seq<int>, n: nat, i: nat, below: bool)
  {
    && i < n <= |s0| && |s| == |s0|
    && InSubtree(n - 1, i)
    && multiset(s) == multiset(s0)
    && s[n..] == s0[n..]
    && ChainFrame(s0, s, n - 1)
    && (below ==> AboveOk(s, n, i))
  }

  /** upheap's first step: the new element n - 1 is exchanged with its parent
      pa when it beats it under the parent's ordering, and the cursor i is
      where the new element now sits. */
  lemma UpBegin(s0: seq<int>, n: nat, pa: nat, i: nat, r: seq<int>, below: bool)
    requires 2 <= n <= |s0| && pa == (n - 2) / 2
    requires below == MinMaxOrdered(s0, n - 1)
    requires if Better(!IsMinLevel(n - 1), s0[n - 1], s0[pa])
             then r == Swapped(s0, n - 1, pa) && i == pa
             else r == s0 && i == n - 1
    ensures UpState(s0, r, n, i, below)
  {
    assert InSubtree(n - 1, pa);
    if below {
      if i == pa {
        UpStartSwap(s0, n);
      } else {
        UpStartStay(s0, n);
      }
    }
  }

  /** One climb of upheap: the cursor's value beats its grandparent g and is
      exchanged with it; g lies on a level of the same kind as i. */
  lemma UpClimb(s0: seq<int>, s: seq<int>, n: nat, i: nat, g: nat, below: bool)
    requires UpState(s0, s, n, i, below)
    requires i >= 3 && g == Grandparent(i)
    requires Better(IsMinLevel(i), s[i], s[g])
    ensures UpState(s0, Swapped(s, i, g), n, g, below)
    ensures IsMinLevel(g) == IsMinLevel(i)
  {
    var pa := (i - 1) / 2;
    assert InSubtree(i, pa) && InSubtree(pa, g);
    SubtreeTrans(i, pa, g);
    SubtreeTrans(n - 1, i, g);
    ParentLevel(i);
    ParentLevel(pa);
    var r := Swapped(s, i, g);
    assert r[n..] == s[n..];
    if below {
      UpStep(s, n, i);
    }
  }

  /** upheap stops, at a cursor i whose value does not beat its grandparent
      g under i's ordering b (or that has no grandparent): the heap over
      [0, n) is restored. */
  lemma UpDone(s0: seq<int>, s: seq<int>, n: nat, i: nat, g: int, b: bool, below: bool)
    requires UpState(s0, s, n, i, below)
    requires b == IsMinLevel(i) && (i >= 3 ==> g == Grandparent(i))
    requires !(i >= 3 && Better(b, s[i], s[g]))
    ensures below ==> MinMaxOrdered(s, n)
  {
    if below {
      UpExit(s, n, i);
    }
  }

  /** After a downheap of i0 on a state t in which every node but i0 passed
      its check, the whole range [0, n) is a heap. */
  lemma HeapAfterDown(t: seq<int>, u: seq<int>, n: nat, i0: nat)
    requires i0 < n <= |t| && |u| == |t|
    requires forall p: nat :: p < n && p != i0 ==> NodeOk(t, n, p)
    requires forall p: nat :: p < n && !InSubtree(p, i0) && NodeOk(t, n, p) ==> NodeOk(u, n, p)
    requires BelowOk(t, n, i0, i0) ==> forall p: nat :: p < n && InSubtree(p, i0) ==> NodeOk(u, n, p)
    ensures MinMaxOrdered(u, n)
  {
    assert BelowOk(t, n, i0, i0);
    forall p: nat | p < n
      ensures NodeOk(u, n, p)
    {
      if !InSubtree(p, i0) {
        assert p != i0;
      }
    }
  }

  lemma MultisetCancel(x: multiset<int>, y: multiset<int>, z: multiset<int>)
    requires x + z == y + z
    ensures x == y
  {
    assert forall v :: x[v] == (x + z)[v] - z[v];
    assert forall v :: y[v] == (y + z)[v] - z[v];
  }

  /** The store operations remove one element from the heap range [0, n) and
      leave it at position n - 1, just past the shrunk range: if the array is
      permuted and unchanged from n on, the shrunk range and that element
      together hold exactly the old range's contents. */
  lemma ExtractTail(s: seq<int>, u: seq<int>, n: nat, e: nat)
    requires 1 <= n <= |s| == |u| && e == n - 1
    requires multiset(u) == multiset(s)
    requires forall k :: n <= k < |s| ==> u[k] == s[k]
    ensures u[n..] == s[n..]
    ensures multiset(u[..e]) + multiset{u[e]} == multiset(s[..n])
  {
    assert s == s[..n] + s[n..];
    assert u == u[..e] + [u[e]] + u[n..];
    assert u[n..] == s[n..];
    MultisetCancel(multiset(u[..e]) + multiset{u[e]}, multiset(s[..n]), multiset(s[n..]));
  }

  /** After downheap(j) over [0, e) on a state t in which every node but j
      passed its check, [0, e) is a heap and the cells from e on are as in t. */
  lemma DownRestores(t: seq<int>, u: seq<int>, e: nat, j: nat)
    requires j < e <= |t|
    requires forall p: nat :: p < e && p != j ==> NodeOk(t, e, p)
    requires DownFrame(t, u, e, j)
    requires BelowOk(t, e, j, j) ==> forall p: nat :: p < e && InSubtree(p, j) ==> NodeOk(u, e, p)
    ensures |u| == |t| && MinMaxOrdered(u, e) && u[e..] == t[e..] && multiset(u) == multiset(t)
  {
    HeapAfterDown(t, u, e, j);
    DownFrameTail(t, u, e, j);
  }

  /** The end of store_min and store_max over the range [0, n), with e = n - 1:
      the value at j (the root, or the larger child of the root) was exchanged
      with the last cell e into t, and u is the state after downheap(j) over
      the shrunk range [0, e), or t itself when j is e and so lies outside it.
      Then [0, e) is a heap holding the old range's contents less the value
      of j, which now sits at e, and the cells from n on are as before. */
  lemma StoreDone(s: seq<int>, t: seq<int>, u: seq<int>, n: nat, e: nat, j: nat)
    requires 2 <= n <= |s| && e == n - 1 && j < n && MinMaxOrdered(s, n)
    requires t == Swapped(s, j, e)
    requires j < e ==> forall p: nat :: p < e && p != j ==> NodeOk(t, e, p)
    requires j < e ==> DownFrame(t, u, e, j)
    requires j < e && BelowOk(t, e, j, j) ==>
               forall p: nat :: p < e && InSubtree(p, j) ==> NodeOk(u, e, p)
    requires j == e ==> u == t
    ensures |u| == |s| && MinMaxOrdered(u, e) && u[e] == s[j]
    ensures multiset(u) == multiset(s) && u[n..] == s[n..]
    ensures multiset(u[..e]) + multiset{u[e]} == multiset(s[..n])
  {
    if j < e {
      DownRestores(t, u, e, j);
      assert u[e] == t[e];
    } else {
      assert t == s;
      ShrinkKeepsHeap(s, n, e);
    }
    assert forall k :: n <= k < |u| ==> u[k] == s[k];
    ExtractTail(s, u, n, e);
  }
}
