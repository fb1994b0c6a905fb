# Min-max heap (Atkinson, Sack, Santoro and Strothotte, 1986) in Dafny

This project models the `MinMaxHeap` class of Bart Massey's `minmaxheap.py`
and proves what it promises. The class is a min-max heap: a double-ended
priority queue kept in place in a caller-supplied array over the range
`[start, end)`. Tree levels alternate between min levels and max levels.
Every node on a min level is `<=` everything in its subtree, and every node
on a max level is `>=` it. So the minimum sits at the root and the maximum
at one of the root's children.

The model follows the source's own form:

- `heap_tree.dfy` (module `HeapTree`) models `is_min_level`, a pure
  function: bit-length parity of the 1-based rank. It also holds the
  implicit tree's parent/child arithmetic and the subtree relation that
  `check_heap`'s `children` walk enumerates.
- `heap_order.dfy` (module `HeapOrder`) holds the boolean content of
  `check_heap` as ghost predicates:
  - `NodeOk` is `check_posn`;
  - `MinMaxOrdered` is the whole check;
  - `Swapped` is the exchange `swap` performs.

  It also holds the facts about the invariant that the operations rely
  on: the minimum at the root, the maximum at a root child, the local
  (children and grandchildren) form of the check, and shrinking the range.
- `heap_repair.dfy` (module `HeapRepair`) and `heap_sift.dfy` (module
  `HeapSift`) state, on sequences, what one step of `downheap` and one step
  of `upheap` keep of the invariant, and the loop states of both routines.
- `minmaxheap.dfy` (module `MinMax`) is the class itself: `class
  MinMaxHeap` with the shared array `a` and the field `end`. Its methods
  mirror the source:
  - `swap`, `downheap`, `upheap`, `increment_end`, `decrement_end`,
    `heapify`, `store_min`, `store_max` and the constructor work in place
    on `a` with `modifies` clauses;
  - each one's loops carry the invariants above;
  - `CheckHeap()` is `check_heap` as a ghost predicate.
- `scenarios.dfy` (module `Scenarios`) holds the file's two self-tests,
  proved for every shuffle the test could draw:
  - sorting the fifteen letters `a`..`o` with 8 `store_max` and 7
    `store_min` calls yields `"gfedcbahijklmno"`;
  - building a heap by `increment_end` + `upheap` from an empty range
    yields a heap over the whole array.
- `findings.dfy` (module `Findings`) models `store_max` as written, and
  the inputs on which its `downheap` call trips `downheap`'s entry
  assertion (see "## Findings").

Elements are integers ordered by `<`, the source's default comparator
(`minmaxheap.py:38-41`). In the sorting self-test, letters are their
character codes. `start` is fixed at 0: the source computes child and
parent indices absolutely, but level parity relative to `start`, so it is
consistent only for `start == 0`, which both self-tests use.

Three behaviours of the source are worth stating plainly:

- The sorting self-test shuffles the letters `a`..`o`, builds a heap,
  and calls `store_max` `n - n // 2 = 8` times and then `store_min` 7
  times (`minmaxheap.py:184-194`).
- `store_min` returns early only when the shrunk range is empty
  (`minmaxheap.py:165`). With one element left, it still exchanges the
  root with index 1, and its downheap has nothing to do.
- `store_max` calls `downheap` on the vacated child without checking that
  the child is still inside the shrunk range (`minmaxheap.py:180`; see
  "## Findings").

The class has no insert, extract, peek, reset or sort operations. The
self-tests' `increment_end` + `upheap` and `store_min`/`store_max`
sequences are the ways it is used, and the model proves those.

## Model

| member | source | states |
|---|---|---|
| HeapTree.IsMinLevel | minmaxheap.py:49-52 | the root (index 0) lies on a min level |
| HeapTree.ParentLevel | minmaxheap.py:49-52 | a node other than the root and its parent `(i - 1) / 2` lie on levels of opposite kinds |
| HeapTree.ChildLevels | minmaxheap.py:49-52 | both children of `i` lie on the opposite kind of level to `i`, all four grandchildren on the same kind |
| HeapTree.LevelSpan | minmaxheap.py:49-52 | the bit length of the rank `i + 1` fixes its level: the rank lies in `[2^(L-1), 2^L)` for bit length `L` |
| HeapTree.SubtreeBelow | minmaxheap.py:131-134 | every node that `children(p)` reaches is at index `>= p`, and every one other than `p` at index `>= 2p + 1` |
| HeapTree.SubtreeChild | minmaxheap.py:131-134 | every proper descendant of `p` lies under `2p + 1` or `2p + 2`, the two recursive calls of `children` |
| HeapTree.SubtreeTrans | minmaxheap.py:131-134 | a descendant of a descendant of `q` is a descendant of `q` |
| HeapTree.SubtreeLinear | minmaxheap.py:131-134 | any two ancestors of a node are nested |
| HeapTree.AllUnderRoot | minmaxheap.py:131-134 | `children(0)` reaches every index |
| HeapTree.SameSide | minmaxheap.py:131-134 | for `j` under `i` and `p` outside `i`'s subtree, `p` is an ancestor of `j` exactly when it is an ancestor of `i` |
| HeapOrder.Swapped | minmaxheap.py:45-47 | the exchange puts `s[k]` at `j` and `s[j]` at `k`, leaves every other cell alone and permutes `s` |
| HeapOrder.SwappedSym | minmaxheap.py:45-47 | exchanging `j` with `k` is exchanging `k` with `j` |
| HeapOrder.SwapKeepsNodeOk | minmaxheap.py:136-149 | exchanging two cells that are both strictly below `p`, or both outside its subtree, keeps `check_posn(p)` |
| HeapOrder.SwapInsideKeepsOutside | minmaxheap.py:136-149 | exchanging two cells of `i0`'s subtree keeps `check_posn` of every node outside that subtree |
| HeapOrder.NearIsBelow | minmaxheap.py:64-68 | the six candidates of `downheap` are proper descendants of `i`; the grandchildren share `i`'s kind of level, the children do not |
| HeapOrder.NearInSubtree | minmaxheap.py:64-68 | each of the six candidates of `downheap` is a proper descendant of `i` |
| HeapOrder.NearLevel | minmaxheap.py:64-68 | the children of `i` lie on the other kind of level, the grandchildren on `i`'s own |
| HeapOrder.LeafOk | minmaxheap.py:136-149 | a node with no child inside the range passes `check_posn` |
| HeapOrder.NearBoundsSubtree | minmaxheap.py:64-72 | a value ordered against the children and grandchildren of `i`, whose grandchildren pass their checks, is ordered against all of `i`'s proper subtree |
| HeapOrder.NearImpliesNodeOk | minmaxheap.py:136-149 | the local check from `p` on down implies `check_posn(p)` over the whole subtree (by induction on the subtree) |
| HeapOrder.HeapIffLocal | minmaxheap.py:128-154 | `check_heap` holds exactly when every node is ordered against its children and grandchildren |
| HeapOrder.ShrinkKeepsHeap | minmaxheap.py:123-126 | a heap over `[0, n)` is a heap over every `[0, m)` with `m <= n` |
| HeapOrder.MinAtRoot | minmaxheap.py:161-168 | the root of a heap holds its minimum |
| HeapOrder.MaxChildIndex | minmaxheap.py:176-178 | `store_max` picks child 1 unless child 2 is in the shrunk range and strictly larger; the pick is never smaller than the other child |
| HeapOrder.MaxAtRootChild | minmaxheap.py:170-180 | the child `store_max` picks holds the maximum of a heap of two or more elements |
| HeapRepair.NotBetter | minmaxheap.py:71-78 | `cf` fails exactly when the pair is ordered the other way, since `lt` is strict |
| HeapRepair.GrandchildBelow | minmaxheap.py:64-68 | a candidate of a cursor inside `i0`'s subtree is inside it too |
| HeapRepair.OffPath | minmaxheap.py:73-82 | a node below `i` that is not on the exchanged path `i`, child, grandchild is an ancestor of none of them |
| HeapRepair.SwapOnPathKeeps | minmaxheap.py:73-82 | exchanges on that path keep the checks of the other nodes of `i`'s subtree |
| HeapRepair.RaisedTopOk | minmaxheap.py:73-79 | the most extreme candidate moved up to `i` passes `check_posn(i)` |
| HeapRepair.LoweredChildOk | minmaxheap.py:73-75 | a child exchanged with `i` keeps its own check |
| HeapRepair.GrandParentOk | minmaxheap.py:78-82 | after the grandchild exchange and the conditional parent exchange, the grandchild's parent passes its check |
| HeapRepair.GrandchildrenOk | minmaxheap.py:64-72 | while sifting down, the grandchildren of the cursor pass their checks |
| HeapRepair.DownChildStep | minmaxheap.py:73-76 | when the extreme candidate is a child, the conditional exchange makes `i0`'s whole subtree pass |
| HeapRepair.DownChildSwap | minmaxheap.py:73-75 | when the extreme child beats `i`, after their exchange the whole subtree of `i0` passes |
| HeapRepair.ChildSwapTop | minmaxheap.py:73-75 | when the extreme child beats `i`, after their exchange `i` passes `check_posn(i)` |
| HeapRepair.DownChildStay | minmaxheap.py:73-76 | when the extreme child does not beat `i`, the whole subtree of `i0` already passes |
| HeapRepair.DownGrandStep | minmaxheap.py:77-86 | when the extreme candidate is a grandchild that beats `i`, after the exchanges every node of the subtree but the new cursor passes |
| HeapRepair.UpStartStay | minmaxheap.py:96-109 | when the new last element does not beat its parent, the upheap state holds at that element |
| HeapRepair.UpStartSwap | minmaxheap.py:96-109 | when it beats its parent, after the exchange the upheap state holds at the parent |
| HeapRepair.UpStartSwapPairs | minmaxheap.py:96-107 | after that exchange every node passes its check except against the parent |
| HeapRepair.UpStartSwapParent | minmaxheap.py:96-107 | after that exchange the parent position passes its check |
| HeapRepair.UpStartSwapOther | minmaxheap.py:96-107 | after that exchange a node other than the parent passes its check except against the parent |
| HeapRepair.UpStepNode | minmaxheap.py:112-116 | after the cursor's exchange with its grandparent `g`, every node passes its check except against `g` |
| HeapRepair.UpStep | minmaxheap.py:112-116 | one climb keeps the upheap state, now at the grandparent, which lies on the same kind of level |
| HeapRepair.UpExit | minmaxheap.py:112 | when the cursor has no grandparent or does not beat it, the range is a heap |
| HeapRepair.UpExitNode | minmaxheap.py:112 | at that exit, every node other than the cursor passes its check |
| HeapRepair.NodeOkTransfer | minmaxheap.py:136-149 | a node's check carries over to a smaller range whose cells in its subtree are unchanged |
| HeapRepair.StoreMinPrepared | minmaxheap.py:164-167 | after the root is exchanged with the new end, every node of the shrunk range but the root passes its check |
| HeapRepair.StoreMaxPrepared | minmaxheap.py:173-179 | after the chosen child is exchanged with the new end, every node of the shrunk range but that child passes its check |
| HeapSift.DownFrameStart | minmaxheap.py:54-59 | `downheap`'s frame holds on entry |
| HeapSift.DownFrameSwap | minmaxheap.py:75-82 | an exchange inside `i0`'s subtree keeps the frame |
| HeapSift.DownFrameTail | minmaxheap.py:54-86 | `downheap` leaves the cells from `end` on alone |
| HeapSift.DownChildLast | minmaxheap.py:73-76 | the child branch returns with `i0`'s subtree a heap whenever it was one except at `i0` |
| HeapSift.DownGrandNext | minmaxheap.py:77-86 | the grandchild branch that continues keeps the loop state at the grandchild |
| HeapSift.DownGrandStay | minmaxheap.py:83-84 | the grandchild branch that returns leaves `i0`'s subtree a heap |
| HeapSift.DownLeaf | minmaxheap.py:65 | a cursor with no child in range ends `downheap` with `i0`'s subtree a heap |
| HeapSift.UpBegin | minmaxheap.py:93-109 | the first comparison and exchange set up the climbing loop's state |
| HeapSift.UpClimb | minmaxheap.py:112-116 | one climb keeps the loop state: permutation, cells outside the ancestor chain and the range unchanged, heap but for the cursor |
| HeapSift.UpDone | minmaxheap.py:112 | the loop's exit restores the heap over `[0, end)` |
| HeapSift.HeapAfterDown | minmaxheap.py:161-180 | a `downheap` of `i0` on a range whose other nodes passed makes the whole range a heap |
| HeapSift.ExtractTail | minmaxheap.py:161-180 | the store operations take exactly the element at the new end out of the range, and leave the cells past the old end alone |
| HeapSift.DownRestores | minmaxheap.py:168 | the final `downheap` of a store operation restores the heap over the shrunk range |
| HeapSift.StoreDone | minmaxheap.py:161-180 | the store operations leave a heap over `[0, end - 1)`, the removed element at `end - 1`, and a permutation of the array |
| MinMax.MinMaxHeap.constructor | minmaxheap.py:28-43 | wraps the array; afterwards `check_heap` holds, the array is permuted only inside `[0, end)`, and ranges of at most one element are left alone |
| MinMax.MinMaxHeap.Swap | minmaxheap.py:45-47 | the array becomes the exchange of cells `i` and `j` |
| MinMax.MinMaxHeap.ExtremeCandidate | minmaxheap.py:64-72 | the chosen candidate is in range and most extreme under `cf`, and strictly beats every earlier candidate, so ties go to the first one in scan order |
| MinMax.MinMaxHeap.Downheap | minmaxheap.py:54-86 | only cells of `i0`'s subtree inside `[0, end)` move (a permutation), nodes outside keep their checks, and the subtree becomes a heap if it was one except at `i0` |
| MinMax.MinMaxHeap.Upheap | minmaxheap.py:88-116 | only cells on the ancestor chain of `end - 1` move (a permutation); a heap over `[0, end - 1)` becomes a heap over `[0, end)` |
| MinMax.MinMaxHeap.UpheapClimb | minmaxheap.py:110-116 | the climbing loop keeps the permutation and ancestor-chain frame and ends with the heap restored |
| MinMax.MinMaxHeap.IncrementEnd | minmaxheap.py:118-121 | requires `end < len(a)`; `end` grows by one |
| MinMax.MinMaxHeap.DecrementEnd | minmaxheap.py:123-126 | requires `end > 0`; `end` shrinks by one and a heap stays a heap |
| MinMax.MinMaxHeap.Heapify | minmaxheap.py:156-159 | downheaping each index from `(end - 1) / 2` back to the root makes `[0, end)` a heap and permutes only that range |
| MinMax.MinMaxHeap.StoreMin | minmaxheap.py:161-168 | `end` shrinks by one, `a[end]` is the old root and the minimum of the old range, the rest is a heap, the array is permuted, and the cells past the old end are unchanged |
| MinMax.MinMaxHeap.StoreMax | minmaxheap.py:170-180 | `end` shrinks by one, `a[end]` is the chosen root child and the maximum of the old range, the rest is a heap, the array is permuted, and the cells past the old end are unchanged |
| Scenarios.Codes | minmaxheap.py:184 | the letters' character codes, one per letter |
| Scenarios.RangeMembers | minmaxheap.py:184 | the codes `[lo, hi)` hold exactly the integers from `lo` to `hi - 1` |
| Scenarios.TakeLargest | minmaxheap.py:190-191 | the element `store_max` removes from a range holding the codes `[lo, hi)` is `hi - 1`, and `[lo, hi - 1)` remains |
| Scenarios.TakeSmallest | minmaxheap.py:192-193 | the element `store_min` removes from a range holding the codes `[lo, hi)` is `lo`, and `[lo + 1, hi)` remains |
| Scenarios.MaxStep | minmaxheap.py:190-191 | one `store_max` extends the increasing run after the range by `hi - 1` |
| Scenarios.MinStep | minmaxheap.py:192-193 | one `store_min` puts `lo` in front of the decreasing run after the range |
| Scenarios.LettersAreRange | minmaxheap.py:184 | the letters `a`..`o` are the codes 97..111 in order |
| Scenarios.ExpectedOrder | minmaxheap.py:194 | `"gfedcbahijklmno"` is 103 down to 97 followed by 104 up to 111 |
| Scenarios.StoreLargestOne | minmaxheap.py:191 | one `store_max` keeps the heap and adds the next code to the increasing run |
| Scenarios.StoreLargest | minmaxheap.py:190-191 | `count` `store_max` calls keep the heap and move the `count` largest codes behind the range, in increasing order |
| Scenarios.StoreSmallestOne | minmaxheap.py:193 | one `store_min` keeps the heap and adds the next code to the decreasing run |
| Scenarios.StoreSmallest | minmaxheap.py:192-193 | `count` `store_min` calls keep the heap and move the `count` smallest codes behind the range, in decreasing order |
| Scenarios.SortScenario | minmaxheap.py:184-194 | for every arrangement of the letters `a`..`o`, the constructor, 8 `store_max` and 7 `store_min` calls leave the array reading `"gfedcbahijklmno"` |
| Scenarios.InsertScenario | minmaxheap.py:196-201 | for every array, `increment_end` + `upheap` once per cell from an empty range leave a heap over the whole array, permuted |
| Findings.AsWrittenRejected | minmaxheap.py:173-180 | the index `store_max` as written hands to `downheap` fails `downheap`'s entry assertion exactly for two elements, or three with the right child the larger |
| Findings.TwoElementHeapRejected | minmaxheap.py:173-180 | `[1, 2]` is a heap on which `store_max` as written calls `downheap(1)` with `end == 1` |
| Findings.ThreeElementHeapRejected | minmaxheap.py:173-180 | `[1, 2, 3]` is a heap on which `store_max` as written calls `downheap(2)` with `end == 2` |

## Left out

- `start != 0`: the source's child and parent indices are absolute while level parity is relative to `start`; the model fixes `start` at 0, as both self-tests do.
- The comparator `lt`: the model orders integers by `<`, the source's default; a caller-supplied closure is not modelled.
- The default `end = len(a) - start` and `end == None` handling: the constructor takes `end` explicitly (the self-tests use `len(a)` and 0).
- `upheap`'s parameters: the first one, `a`, is unused, and the self-test's `h.upheap(i)` lands there, so `i` defaults to `end - 1`; `Upheap` always works on `end - 1`.
- `check_heap`'s `print` diagnostics and its list-building `children` walk: only its boolean verdict is modelled, as the ghost predicate `CheckHeap`.
- `random.shuffle` in the self-tests: the scenarios take an arbitrary arrangement of the input instead.
- `assert` failures and Python exceptions: every `assert` of the source becomes a `requires`, so the model has no failing runs.
- MinMax.MinMaxHeap.StoreMin: requires a non-empty heap; the source only asserts `end >= start`, and on an empty heap drives `end` to -1, which `end: nat` cannot represent.
- MinMax.MinMaxHeap.StoreMax: requires a non-empty heap, for the same reason; it also skips `downheap` when the chosen child is the shrunk range's end (see Findings).
- Aliasing beyond the heap object's own array, and object identity of the `MinMaxHeap` instances: the self-tests create a fresh heap per run, as the model does.

## Findings

| source | as written | input that shows it | evidently intended | confidence | as-written member | corrected member |
|---|---|---|---|---|---|---|
| minmaxheap.py:173-180 | `store_max` calls `downheap(imax)` after shrinking `end`, even when `imax == end` | the heap `[1, 2]` (then `imax == end == 1`) or `[1, 2, 3]` (then `imax == end == 2`); `downheap`'s assertion `i < self.end` at line 58 fails | skip the `downheap` when the maximum's old position is the new end, since the shrunk range is already a heap | not executed | Findings.AsWrittenRejected | MinMax.MinMaxHeap.StoreMax |
