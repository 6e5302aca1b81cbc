/** The heap underlying NativeSortExtension's HeapSort, on sequences: the
    implicit binary tree over `n` cells from `lo` (node `k`, counted from 1,
    lives in cell `lo + k - 1` and has children `2 * k` and `2 * k + 1`),
    the sift-down Heapify performs, the two phases of HeapSort as recursive
    functions, and the proofs that the result is sorted and a permutation. */
module HeapOrder {
  import opened Ordering

  /** Index of the left child of cell `p` in the implicit binary heap rooted
      at `lo`. The heap numbers its nodes from 1, so cell `p` is node
      `p - lo + 1`, whose children are nodes `2 * (p - lo + 1)` and one more. */
  function Left(lo: int, p: int): int {
    2 * p - lo + 1
  }

  /** Index of the parent of cell `k`, the inverse of Left. */
  function Parent(lo: int, k: int): (p: int)
    requires lo < k
    ensures lo <= p < k
    ensures k == Left(lo, p) || k == Left(lo, p) + 1
  {
    lo + (k - lo + 1) / 2 - 1
  }

  /** Cell `c`, when it lies in the `n` cells from `lo`, sorts no later than
      cell `p`. */
  ghost predicate EdgeOk<T>(cmp: (T, T) -> int, s: seq<T>, lo: int, n: int, p: int, c: int) {
    0 <= p < c < lo + n <= |s| ==> cmp(s[c], s[p]) <= 0
  }

  /** The children of cell `p` in the `n` cells from `lo` all sort no later
      than `v`. */
  ghost predicate ChildrenAtMost<T>(cmp: (T, T) -> int, s: seq<T>, lo: int, n: int, p: int, v: T) {
    && (0 <= Left(lo, p) < lo + n <= |s| ==> cmp(s[Left(lo, p)], v) <= 0)
    && (0 <= Left(lo, p) + 1 < lo + n <= |s| ==> cmp(s[Left(lo, p) + 1], v) <= 0)
  }

  /** In the `n` cells from `lo`, every node from node `from` on sorts no
      earlier than its children. With `from == 1` the cells form a max-heap.
      (The trigger keeps the solver from walking down the tree on its own.) */
  ghost predicate HeapFrom<T>(cmp: (T, T) -> int, s: seq<T>, lo: int, n: int, from: int) {
    forall p {:trigger Left(lo, p)} :: 0 <= lo && lo + from - 1 <= p < lo + n ==>
      EdgeOk(cmp, s, lo, n, p, Left(lo, p)) && EdgeOk(cmp, s, lo, n, p, Left(lo, p) + 1)
  }

  /** Heapify's sift-down from node `from` with its hole at cell `hole`: every
      edge below node `from` that does not touch the hole is in order. */
  ghost predicate HeapAroundHole<T>(cmp: (T, T) -> int, s: seq<T>, lo: int, n: int, from: int, hole: int) {
    forall p {:trigger Left(lo, p)} :: 0 <= lo && lo + from - 1 <= p < lo + n && p != hole ==>
      && (Left(lo, p) != hole ==> EdgeOk(cmp, s, lo, n, p, Left(lo, p)))
      && (Left(lo, p) + 1 != hole ==> EdgeOk(cmp, s, lo, n, p, Left(lo, p) + 1))
  }

  /** Once the hole has moved down from node `from`, the parent of the hole
      sorts no earlier than the sinking value or than the hole's children. */
  ghost predicate HoleParentAbove<T>(cmp: (T, T) -> int, s: seq<T>, lo: int, n: int, from: int, hole: int, val: T) {
    hole != lo + from - 1 && 0 <= lo < hole < |s| ==>
      && cmp(val, s[Parent(lo, hole)]) <= 0
      && ChildrenAtMost(cmp, s, lo, n, hole, s[Parent(lo, hole)])
  }

  /** Heapify's loop invariant, with the hole at cell `hole` and the value
      `val` sinking from node `from`: the heap edges that avoid the hole are
      in order, the hole's parent bounds the hole's children and `val`, and
      putting `val` into the hole gives a permutation of `orig`, the array
      Heapify started from. */
  ghost predicate Sifting<T>(cmp: (T, T) -> int, s: seq<T>, orig: seq<T>, lo: int, n: int, from: int, hole: int, val: T) {
    && 0 <= lo && 1 <= from && lo + from - 1 <= hole < lo + n <= |s|
    && HeapAroundHole(cmp, s, lo, n, from, hole)
    && HoleParentAbove(cmp, s, lo, n, from, hole, val)
    && Permuted(s[hole := val], orig, lo, lo + n)
  }

  /** Past the middle of the heap no node has children, so the heap property
      holds from node `n / 2 + 1` on for any contents. */
  lemma HeapLeaves<T>(cmp: (T, T) -> int, s: seq<T>, lo: int, n: int)
    ensures HeapFrom(cmp, s, lo, n, n / 2 + 1)
  {
  }

  /** A cell past the middle of the heap has no children. */
  lemma Childless<T>(cmp: (T, T) -> int, s: seq<T>, lo: int, n: int, hole: int, v: T)
    requires 0 <= lo && n / 2 < hole - lo + 1
    ensures ChildrenAtMost(cmp, s, lo, n, hole, v)
  {
  }

  /** Heapify starts with the hole at node `i` itself, where the value it sinks
      came from. */
  lemma HeapifyStart<T>(cmp: (T, T) -> int, s: seq<T>, lo: int, n: int, i: int)
    requires 0 <= lo && 1 <= i <= n && lo + n <= |s|
    requires HeapFrom(cmp, s, lo, n, i + 1)
    ensures Sifting(cmp, s, s, lo, n, i, lo + i - 1, s[lo + i - 1])
  {
    assert s[lo + i - 1 := s[lo + i - 1]] == s;
  }

  /** When the larger child sorts strictly before the sinking value, so do
      both children. */
  lemma ChildrenBelowValue<T(!new)>(cmp: Comparer<T>, s: seq<T>, lo: int, n: int, hole: int, big: T, val: T)
    requires ChildrenAtMost(cmp, s, lo, n, hole, big)
    requires cmp(big, val) < 0
    ensures ChildrenAtMost(cmp, s, lo, n, hole, val)
  {
    if 0 <= Left(lo, hole) < lo + n <= |s| {
      Trans(cmp, s[Left(lo, hole)], big, val);
    }
    if 0 <= Left(lo, hole) + 1 < lo + n <= |s| {
      Trans(cmp, s[Left(lo, hole) + 1], big, val);
    }
  }

  /** One step of Heapify's loop: moving the larger child `c` up into the hole
      keeps the loop invariant, with the hole now at `c`. */
  lemma HeapifyStep<T(!new)>(cmp: Comparer<T>, s: seq<T>, r: seq<T>, orig: seq<T>, lo: int, n: int, from: int, hole: int, c: int, val: T)
    requires Sifting(cmp, s, orig, lo, n, from, hole, val)
    requires c == Left(lo, hole) || c == Left(lo, hole) + 1
    requires c < lo + n
    requires r == s[hole := s[c]]
    requires ChildrenAtMost(cmp, s, lo, n, hole, s[c])
    requires cmp(s[c], val) >= 0
    ensures Sifting(cmp, r, orig, lo, n, from, c, val)
  {
    StepKeepsEdges(cmp, s, r, lo, n, from, hole, c);
    StepRaisesParent(cmp, s, r, lo, n, from, hole, c, val);
    StepPermutes(s, r, orig, lo, n, hole, c, val);
  }

  /** The permutation part of HeapifyStep: with `val` in the new hole the
      cells are the old ones with `val` and the moved child exchanged. */
  lemma StepPermutes<T>(s: seq<T>, r: seq<T>, orig: seq<T>, lo: int, n: int, hole: int, c: int, val: T)
    requires 0 <= lo <= hole < c < lo + n <= |s|
    requires Permuted(s[hole := val], orig, lo, lo + n)
    requires r == s[hole := s[c]]
    ensures Permuted(r[c := val], orig, lo, lo + n)
  {
    var x := s[hole := val];
    assert r[c := val] == Swapped(x, hole, c);
    SwappedPermuted(x, hole, c, lo, lo + n);
    PermutedTrans(r[c := val], x, orig, lo, lo + n);
  }

  /** The edges part of HeapifyStep. */
  lemma StepKeepsEdges<T>(cmp: (T, T) -> int, s: seq<T>, r: seq<T>, lo: int, n: int, from: int, hole: int, c: int)
    requires 0 <= lo && 1 <= from && lo + from - 1 <= hole < c < lo + n <= |s|
    requires c == Left(lo, hole) || c == Left(lo, hole) + 1
    requires r == s[hole := s[c]]
    requires HeapAroundHole(cmp, s, lo, n, from, hole)
    requires HoleParentAbove(cmp, s, lo, n, from, hole, val := s[c])
    requires ChildrenAtMost(cmp, s, lo, n, hole, s[c])
    ensures HeapAroundHole(cmp, r, lo, n, from, c)
  {
    forall p | 0 <= lo && lo + from - 1 <= p < lo + n && p != c
      ensures Left(lo, p) != c ==> EdgeOk(cmp, r, lo, n, p, Left(lo, p))
      ensures Left(lo, p) + 1 != c ==> EdgeOk(cmp, r, lo, n, p, Left(lo, p) + 1)
    {
      if p != hole && (Left(lo, p) == hole || Left(lo, p) + 1 == hole) {
        assert Parent(lo, hole) == p;
      }
    }
  }

  /** The parent part of HeapifyStep: the cell the hole leaves holds the child
      moved up, which sorts no earlier than the sinking value and than the
      new hole's children. */
  lemma StepRaisesParent<T(!new)>(cmp: Comparer<T>, s: seq<T>, r: seq<T>, lo: int, n: int, from: int, hole: int, c: int, val: T)
    requires 0 <= lo && 1 <= from && lo + from - 1 <= hole < c < lo + n <= |s|
    requires c == Left(lo, hole) || c == Left(lo, hole) + 1
    requires r == s[hole := s[c]]
    requires HeapAroundHole(cmp, s, lo, n, from, hole)
    requires cmp(s[c], val) >= 0
    ensures HoleParentAbove(cmp, r, lo, n, from, c, val)
  {
    assert Parent(lo, c) == hole;
    assert EdgeOk(cmp, s, lo, n, c, Left(lo, c)) && EdgeOk(cmp, s, lo, n, c, Left(lo, c) + 1);
    Antisymmetric(cmp, s[c], val);
  }

  /** Dropping the sinking value into the hole, once no child of the hole
      sorts after it, completes the heap from node `from`. */
  lemma HeapifyPlace<T(!new)>(cmp: Comparer<T>, s: seq<T>, r: seq<T>, orig: seq<T>, lo: int, n: int, from: int, hole: int, val: T)
    requires Sifting(cmp, s, orig, lo, n, from, hole, val)
    requires ChildrenAtMost(cmp, s, lo, n, hole, val)
    requires r == s[hole := val]
    ensures HeapFrom(cmp, r, lo, n, from)
    ensures Permuted(r, orig, lo, lo + n)
  {
    forall p | 0 <= lo && lo + from - 1 <= p < lo + n
      ensures EdgeOk(cmp, r, lo, n, p, Left(lo, p)) && EdgeOk(cmp, r, lo, n, p, Left(lo, p) + 1)
    {
      if p != hole && (Left(lo, p) == hole || Left(lo, p) + 1 == hole) {
        assert Parent(lo, hole) == p;
      }
    }
  }

  /** The root of a max-heap sorts no earlier than any of its cells. */
  lemma {:induction false} HeapRoot<T(!new)>(cmp: Comparer<T>, s: seq<T>, lo: int, n: int, k: int)
    requires 0 <= lo <= k < lo + n <= |s|
    requires HeapFrom(cmp, s, lo, n, 1)
    ensures cmp(s[k], s[lo]) <= 0
    decreases k
  {
    if k == lo {
      Reflexive(cmp, s[lo]);
    } else {
      var p := Parent(lo, k);
      assert EdgeOk(cmp, s, lo, n, p, Left(lo, p)) && EdgeOk(cmp, s, lo, n, p, Left(lo, p) + 1);
      HeapRoot(cmp, s, lo, n, p);
      Trans(cmp, s[k], s[p], s[lo]);
    }
  }

  /** One round of HeapSort's second loop before the heap is repaired:
      swapping the root, a maximum of the heap, to the last heap cell extends
      the sorted tail by one and keeps the heap below the root intact. */
  lemma HeapSortExtract<T(!new)>(cmp: Comparer<T>, s: seq<T>, r: seq<T>, lo: int, n: int, i: int)
    requires 0 <= lo && 2 <= i <= n && lo + n <= |s|
    requires HeapFrom(cmp, s, lo, i, 1)
    requires Sorted(cmp, s, lo + i, lo + n)
    requires AllBelow(cmp, s, lo, lo + i, lo + n)
    requires r == Swapped(s, lo, lo + i - 1)
    ensures HeapFrom(cmp, r, lo, i - 1, 2)
    ensures Sorted(cmp, r, lo + i - 1, lo + n)
    ensures AllBelow(cmp, r, lo, lo + i - 1, lo + n)
    ensures Permuted(r, s, lo, lo + n)
  {
    forall k | lo <= k < lo + i
      ensures cmp(s[k], s[lo]) <= 0
    {
      HeapRoot(cmp, s, lo, i, k);
    }
    forall p | 0 <= lo && lo + 1 <= p < lo + i - 1
      ensures EdgeOk(cmp, r, lo, i - 1, p, Left(lo, p)) && EdgeOk(cmp, r, lo, i - 1, p, Left(lo, p) + 1)
    {
      assert EdgeOk(cmp, s, lo, i, p, Left(lo, p)) && EdgeOk(cmp, s, lo, i, p, Left(lo, p) + 1);
    }
  }

  /** The child of node `node` that Heapify compares with the sinking value:
      the right child only when it exists and the left one sorts strictly
      before it. */
  function LargerChild<T>(cmp: (T, T) -> int, s: seq<T>, lo: int, n: int, node: int): (c: int)
    requires 0 <= lo && 1 <= node && 2 * node <= n && lo + n <= |s|
    ensures c == 2 * node || (c == 2 * node + 1 && c <= n)
    ensures lo + c - 1 == Left(lo, lo + node - 1) || lo + c - 1 == Left(lo, lo + node - 1) + 1
  {
    if 2 * node < n && cmp(s[lo + 2 * node - 1], s[lo + 2 * node]) < 0 then 2 * node + 1 else 2 * node
  }

  /** The child LargerChild picks sorts no earlier than either child. */
  lemma LargerChildIsLargest<T(!new)>(cmp: Comparer<T>, s: seq<T>, lo: int, n: int, node: int)
    requires 0 <= lo && 1 <= node && 2 * node <= n && lo + n <= |s|
    ensures ChildrenAtMost(cmp, s, lo, n, lo + node - 1, s[lo + LargerChild(cmp, s, lo, n, node) - 1])
  {
    var l := lo + 2 * node - 1;
    if 2 * node < n {
      Antisymmetric(cmp, s[l], s[l + 1]);
    }
    Reflexive(cmp, s[lo + LargerChild(cmp, s, lo, n, node) - 1]);
  }

  /** Heapify: the value `val` sinks from node `node` of the `n`-node heap at
      `lo`, each larger child it does not sort after moving up one level, and
      is written where it stops. */
  function Sift<T>(cmp: (T, T) -> int, s: seq<T>, lo: int, n: int, node: int, val: T): (r: seq<T>)
    requires 0 <= lo && 1 <= node <= n && lo + n <= |s|
    ensures |r| == |s|
    decreases n - node
  {
    if n / 2 < node then
      s[lo + node - 1 := val]
    else
      var c := LargerChild(cmp, s, lo, n, node);
      if cmp(s[lo + c - 1], val) < 0 then
        s[lo + node - 1 := val]
      else
        Sift(cmp, s[lo + node - 1 := s[lo + c - 1]], lo, n, c, val)
  }

  /** One round of Heapify's loop: when the larger child does not sort before
      the sinking value, it moves up into the hole and the sift goes on from
      the child's node. */
  lemma SiftDescends<T>(cmp: (T, T) -> int, s: seq<T>, t: seq<T>, lo: int, n: int, node: int, c: int, val: T)
    requires 0 <= lo && 1 <= node <= n / 2 && lo + n <= |s|
    requires c == LargerChild(cmp, s, lo, n, node)
    requires cmp(s[lo + c - 1], val) >= 0
    requires t == s[lo + node - 1 := s[lo + c - 1]]
    ensures Sift(cmp, s, lo, n, node, val) == Sift(cmp, t, lo, n, c, val)
  {
  }

  /** Heapify's loop ends, and the value goes into the hole, when the hole
      has no child or its larger child sorts strictly before the value. */
  lemma SiftStops<T>(cmp: (T, T) -> int, s: seq<T>, r: seq<T>, lo: int, n: int, node: int, val: T)
    requires 0 <= lo && 1 <= node <= n && lo + n <= |s|
    requires n / 2 < node || cmp(s[lo + LargerChild(cmp, s, lo, n, node) - 1], val) < 0
    requires r == s[lo + node - 1 := val]
    ensures Sift(cmp, s, lo, n, node, val) == r
  {
  }

  /** HeapSort's first loop: Heapify on nodes `i`, `i - 1`, ..., 1. */
  function BuildHeap<T>(cmp: (T, T) -> int, s: seq<T>, lo: int, n: int, i: int): (r: seq<T>)
    requires 0 <= lo && 0 <= i <= n && lo + n <= |s|
    ensures |r| == |s|
    decreases i
  {
    if i == 0 then s else BuildHeap(cmp, Sift(cmp, s, lo, n, i, s[lo + i - 1]), lo, n, i - 1)
  }

  /** HeapSort's second loop on a heap of `i` cells: swap the root to the last
      cell, then Heapify the root of the heap one cell shorter. */
  function SortDown<T>(cmp: (T, T) -> int, s: seq<T>, lo: int, i: int): (r: seq<T>)
    requires 0 <= lo && 1 <= i && lo + i <= |s|
    ensures |r| == |s|
    decreases i
  {
    if i == 1 then s
    else
      var t := Swapped(s, lo, lo + i - 1);
      SortDown(cmp, Sift(cmp, t, lo, i - 1, 1, t[lo]), lo, i - 1)
  }

  /** Sift with its loop invariant holding for the hole at node `node`
      finishes a heap from node `from` that is a permutation of `orig`. The
      result is passed in as `r`, so that the goals speak of it alone. */
  lemma {:induction false} SiftCorrect<T(!new)>(cmp: Comparer<T>, s: seq<T>, r: seq<T>, orig: seq<T>, lo: int, n: int, from: int, node: int, val: T)
    requires 1 <= node <= n
    requires Sifting(cmp, s, orig, lo, n, from, lo + node - 1, val)
    requires r == Sift(cmp, s, lo, n, node, val)
    ensures HeapFrom(cmp, r, lo, n, from)
    ensures Permuted(r, orig, lo, lo + n)
    decreases n - node
  {
    var hole := lo + node - 1;
    if n / 2 < node {
      Childless(cmp, s, lo, n, hole, val);
      HeapifyPlace(cmp, s, r, orig, lo, n, from, hole, val);
    } else {
      var c := LargerChild(cmp, s, lo, n, node);
      LargerChildIsLargest(cmp, s, lo, n, node);
      if cmp(s[lo + c - 1], val) < 0 {
        ChildrenBelowValue(cmp, s, lo, n, hole, s[lo + c - 1], val);
        HeapifyPlace(cmp, s, r, orig, lo, n, from, hole, val);
      } else {
        var t := s[hole := s[lo + c - 1]];
        HeapifyStep(cmp, s, t, orig, lo, n, from, hole, lo + c - 1, val);
        SiftCorrect(cmp, t, r, orig, lo, n, from, c, val);
      }
    }
  }

  /** Heapify at node `i`, below which the cells already form a heap, extends
      the heap to node `i` and only rearranges the heap's cells. */
  lemma HeapifyCorrect<T(!new)>(cmp: Comparer<T>, s: seq<T>, r: seq<T>, lo: int, n: int, i: int)
    requires 0 <= lo && 1 <= i <= n && lo + n <= |s|
    requires HeapFrom(cmp, s, lo, n, i + 1)
    requires r == Sift(cmp, s, lo, n, i, s[lo + i - 1])
    ensures HeapFrom(cmp, r, lo, n, i)
    ensures Permuted(r, s, lo, lo + n)
  {
    HeapifyStart(cmp, s, lo, n, i);
    SiftCorrect(cmp, s, r, s, lo, n, i, i, s[lo + i - 1]);
  }

  /** Heapify on nodes `i` down to 1, over cells that are a heap from node
      `i + 1` on, makes the whole range a max-heap. */
  lemma {:induction false} BuildHeapCorrect<T(!new)>(cmp: Comparer<T>, s: seq<T>, r: seq<T>, lo: int, n: int, i: int)
    requires 0 <= lo && 0 <= i <= n && lo + n <= |s|
    requires HeapFrom(cmp, s, lo, n, i + 1)
    requires r == BuildHeap(cmp, s, lo, n, i)
    ensures HeapFrom(cmp, r, lo, n, 1)
    ensures Permuted(r, s, lo, lo + n)
    decreases i
  {
    if i > 0 {
      var t := Sift(cmp, s, lo, n, i, s[lo + i - 1]);
      HeapifyCorrect(cmp, s, t, lo, n, i);
      BuildHeapCorrect(cmp, t, r, lo, n, i - 1);
      PermutedTrans(r, t, s, lo, lo + n);
    }
  }

  /** The second phase, started on a max-heap of the first `i` cells whose
      `n - i` following cells are sorted and no smaller, sorts all `n` cells. */
  lemma {:induction false} SortDownCorrect<T(!new)>(cmp: Comparer<T>, s: seq<T>, r: seq<T>, lo: int, n: int, i: int)
    requires 0 <= lo && 1 <= i <= n && lo + n <= |s|
    requires HeapFrom(cmp, s, lo, i, 1)
    requires Sorted(cmp, s, lo + i, lo + n)
    requires AllBelow(cmp, s, lo, lo + i, lo + n)
    requires r == SortDown(cmp, s, lo, i)
    ensures Sorted(cmp, r, lo, lo + n)
    ensures Permuted(r, s, lo, lo + n)
    decreases i
  {
    if i == 1 {
      SortedConcat(cmp, s, lo, lo + 1, lo + n);
    } else {
      var t := Swapped(s, lo, lo + i - 1);
      var u := Sift(cmp, t, lo, i - 1, 1, t[lo]);
      SortDownStep(cmp, s, t, u, lo, n, i);
      SortDownCorrect(cmp, u, r, lo, n, i - 1);
      PermutedTrans(r, u, s, lo, lo + n);
    }
  }

  /** One round of the second phase keeps the premises of SortDownCorrect
      with the heap one cell shorter. */
  lemma SortDownStep<T(!new)>(cmp: Comparer<T>, s: seq<T>, t: seq<T>, u: seq<T>, lo: int, n: int, i: int)
    requires 0 <= lo && 2 <= i <= n && lo + n <= |s|
    requires HeapFrom(cmp, s, lo, i, 1)
    requires Sorted(cmp, s, lo + i, lo + n)
    requires AllBelow(cmp, s, lo, lo + i, lo + n)
    requires t == Swapped(s, lo, lo + i - 1)
    requires u == Sift(cmp, t, lo, i - 1, 1, t[lo])
    ensures HeapFrom(cmp, u, lo, i - 1, 1)
    ensures Sorted(cmp, u, lo + i - 1, lo + n)
    ensures AllBelow(cmp, u, lo, lo + i - 1, lo + n)
    ensures Permuted(u, s, lo, lo + n)
  {
    HeapSortExtract(cmp, s, t, lo, n, i);
    HeapifyCorrect(cmp, t, u, lo, i - 1, 1);
    PermutedKeepsAllBelow(cmp, u, t, lo, lo + i - 1, lo, lo + i - 1, lo + n);
    PermutedTrans(u, t, s, lo, lo + n);
  }

  /** Both phases of HeapSort on `s[lo..hi]` (inclusive) give a sorted
      permutation of it. */
  lemma HeapSortCorrect<T(!new)>(cmp: Comparer<T>, s: seq<T>, r: seq<T>, lo: int, hi: int)
    requires 0 <= lo <= hi < |s|
    requires r == SortDown(cmp, BuildHeap(cmp, s, lo, hi - lo + 1, (hi - lo + 1) / 2), lo, hi - lo + 1)
    ensures Sorted(cmp, r, lo, hi + 1)
    ensures Permuted(r, s, lo, hi + 1)
  {
    var n := hi - lo + 1;
    var b := BuildHeap(cmp, s, lo, n, n / 2);
    HeapLeaves(cmp, s, lo, n);
    BuildHeapCorrect(cmp, s, b, lo, n, n / 2);
    SortDownCorrect(cmp, b, r, lo, n, n);
    PermutedTrans(r, b, s, lo, lo + n);
    SortedPermutedUpTo(cmp, r, s, lo, n, hi);
  }

  /** Restates a sorted permutation of the `n` cells from `lo` for the
      inclusive bound `hi` with `lo + n == hi + 1`. */
  lemma SortedPermutedUpTo<T>(cmp: (T, T) -> int, r: seq<T>, s: seq<T>, lo: int, n: int, hi: int)
    requires lo + n == hi + 1
    requires Sorted(cmp, r, lo, lo + n) && Permuted(r, s, lo, lo + n)
    ensures Sorted(cmp, r, lo, hi + 1) && Permuted(r, s, lo, hi + 1)
  {
  }
}
