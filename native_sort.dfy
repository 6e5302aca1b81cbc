/** The in-place introsort and the binary search of Unity.Collections'
    NativeSortExtension, over an `array<T>` and a comparer `cmp`.

    The source works on a raw pointer and inclusive bounds `lo..hi`; here the
    pointer is an array and the bounds are kept inclusive, as written.  The
    contracts use the half-open ranges of module Ordering, so `[lo, hi]` in the
    source is `lo, hi + 1` below. */
module NativeSort {
  import opened Ordering
  import opened HeapOrder

  /** Segments of at most this many elements are finished by the small-sort
      branch of IntroSort instead of being partitioned. */
  const IntrosortSizeThreshold := 16

  function Pow2(k: nat): (r: nat)
    ensures r >= 1
  {
    if k == 0 then 1 else 2 * Pow2(k - 1)
  }

  /** Floor of the base-2 logarithm, as CollectionHelper.Log2Floor computes it
      (`31 - lzcnt(n)`), so that zero gives -1. */
  function Log2Floor(n: nat): (r: int)
    ensures n == 0 <==> r == -1
    ensures n >= 1 ==> r >= 0 && Pow2(r) <= n < 2 * Pow2(r)
  {
    if n == 0 then -1 else if n == 1 then 0 else 1 + Log2Floor(n / 2)
  }

  /** Exchanges `a[lhs]` and `a[rhs]`. */
  method Swap<T>(a: array<T>, lhs: int, rhs: int)
    requires 0 <= lhs < a.Length && 0 <= rhs < a.Length
    modifies a
    ensures a[..] == Swapped(old(a[..]), lhs, rhs)
    ensures a[lhs] == old(a[rhs]) && a[rhs] == old(a[lhs])
    ensures forall k :: 0 <= k < a.Length && k != lhs && k != rhs ==> a[k] == old(a[k])
    ensures multiset(a[..]) == multiset(old(a[..]))
  {
    var val := a[lhs];
    a[lhs] := a[rhs];
    a[rhs] := val;
  }

  /** Puts `a[lhs]` and `a[rhs]` in order, swapping them only when the first
      sorts strictly after the second. */
  method SwapIfGreaterWithItems<T(!new)>(a: array<T>, lhs: int, rhs: int, cmp: Comparer<T>)
    requires 0 <= lhs < a.Length && 0 <= rhs < a.Length
    modifies a
    ensures cmp(a[lhs], a[rhs]) <= 0
    ensures lhs == rhs ==> a[..] == old(a[..])
    ensures || (a[lhs] == old(a[lhs]) && a[rhs] == old(a[rhs]))
            || (a[lhs] == old(a[rhs]) && a[rhs] == old(a[lhs]))
    ensures forall k :: 0 <= k < a.Length && k != lhs && k != rhs ==> a[k] == old(a[k])
    ensures multiset(a[..]) == multiset(old(a[..]))
  {
    if lhs != rhs {
      if cmp(a[lhs], a[rhs]) > 0 {
        Antisymmetric(cmp, a[lhs], a[rhs]);
        Swap(a, lhs, rhs);
      }
    } else {
      Reflexive(cmp, a[lhs]);
    }
  }

  /** Sorts `a[lo..hi]` (inclusive) by insertion: each pass inserts the next
      element into the sorted prefix. */
  method InsertionSort<T(!new)>(a: array<T>, lo: int, hi: int, cmp: Comparer<T>)
    requires 0 <= lo <= hi < a.Length
    modifies a
    ensures Sorted(cmp, a[..], lo, hi + 1)
    ensures Permuted(a[..], old(a[..]), lo, hi + 1)
  {
    var i := lo;
    while i < hi
      invariant lo <= i <= hi
      invariant Sorted(cmp, a[..], lo, i + 1)
      invariant Permuted(a[..], old(a[..]), lo, hi + 1)
    {
      InsertNext(a, lo, i, cmp);
      i := i + 1;
    }
  }

  /** The body of InsertionSort's outer loop: with `a[lo..i]` sorted, takes
      `t = a[i + 1]`, shifts the elements that sort strictly after it one cell
      to the right and drops it into the gap. */
  method InsertNext<T(!new)>(a: array<T>, lo: int, i: int, cmp: Comparer<T>)
    requires 0 <= lo <= i && i + 1 < a.Length
    requires Sorted(cmp, a[..], lo, i + 1)
    modifies a
    ensures Sorted(cmp, a[..], lo, i + 2)
    ensures Permuted(a[..], old(a[..]), lo, i + 2)
  {
    var j := i;
    var t := a[i + 1];
    // Cell j + 1 is the hole that t will fill; the cells around it stay in
    // order, and those right of it all sort strictly after t.
    while j >= lo && cmp(t, a[j]) < 0
      invariant lo - 1 <= j <= i
      invariant SortedAroundHole(cmp, a[..], lo, i + 2, j + 1)
      invariant BelowAll(cmp, t, a[..], j + 2, i + 2)
      invariant multiset(a[..][j + 1 := t]) == multiset(old(a[..]))
      invariant forall k :: 0 <= k < a.Length && !(lo <= k <= i + 1) ==> a[k] == old(a[k])
      decreases j
    {
      ShiftIntoHole(a[..], j, t);
      InsertionShift(cmp, a[..], a[..][j + 1 := a[j]], lo, i, j, t);
      a[j + 1] := a[j];
      j := j - 1;
    }
    InsertionPlace(cmp, a[..], lo, i, j, t);
    a[j + 1] := t;
  }

  /** Partitions `a[lo..hi]` (inclusive) around the median of `a[lo]`,
      `a[mid]` and `a[hi]`, and returns the pivot's final index. The median of
      three leaves an element no greater than the pivot at `lo` and parks the
      pivot at `hi - 1`; these stop the two scans without bounds checks. */
  method Partition<T(!new)>(a: array<T>, lo: int, hi: int, cmp: Comparer<T>) returns (p: int)
    requires 0 <= lo < hi < a.Length
    modifies a
    ensures lo <= p < hi
    ensures NotAbove(cmp, a[..], lo, p, a[p])
    ensures NotBelow(cmp, a[..], p + 1, hi + 1, a[p])
    ensures Permuted(a[..], old(a[..]), lo, hi + 1)
  {
    var pivot := MedianOfThree(a, lo, hi, cmp);
    ghost var a1 := a[..];
    var left := ExchangeAroundPivot(a, lo, hi, pivot, cmp);
    ghost var a2 := a[..];
    Swap(a, left, hi - 1);
    PartitionFinish(cmp, a2, a[..], lo, left, hi, pivot);
    PermutedTrans(a2, a1, old(a[..]), lo, hi + 1);
    PermutedTrans(a[..], a2, old(a[..]), lo, hi + 1);
    p := left;
  }

  /** The loop of Partition: `left` and `right` scan towards each other from
      the two ends, exchanging the pairs of cells that sit on the wrong side,
      until they meet. On return the cells before `left` sort no later than
      the pivot, the cells from `left` on no earlier. */
  method ExchangeAroundPivot<T(!new)>(a: array<T>, lo: int, hi: int, pivot: T, cmp: Comparer<T>) returns (left: int)
    requires 0 <= lo < hi < a.Length
    requires a[hi - 1] == pivot
    requires cmp(pivot, a[lo]) >= 0 && cmp(pivot, a[hi]) <= 0
    modifies a
    ensures lo <= left <= hi - 1 && a[hi - 1] == pivot
    ensures NotAbove(cmp, a[..], lo, left, pivot)
    ensures NotBelow(cmp, a[..], left, hi + 1, pivot)
    ensures Permuted(a[..], old(a[..]), lo, hi + 1)
  {
    Reflexive(cmp, pivot);
    left := lo;
    var right := hi - 1;
    while left < right
      invariant lo <= left <= right <= hi - 1
      invariant a[hi - 1] == pivot
      invariant NotAbove(cmp, a[..], lo, left + 1, pivot)
      invariant NotBelow(cmp, a[..], right, hi + 1, pivot)
      invariant multiset(a[..]) == multiset(old(a[..]))
      invariant forall k :: 0 <= k < a.Length && !(lo <= k <= hi) ==> a[k] == old(a[k])
    {
      left := ScanUp(a, lo, left, right, pivot, cmp);
      right := ScanDown(a, lo, left, right, hi, pivot, cmp);
      if left >= right {
        break;
      }
      ghost var s := a[..];
      Swap(a, left, right);
      PartitionExchange(cmp, s, lo, left, right, hi, pivot);
    }
  }

  /** The prelude of Partition: orders `a[lo]`, `a[mid]` and `a[hi]` with
      three compare-exchanges and parks the median, the pivot, at `hi - 1`.
      Afterwards `a[lo]` sorts no later than the pivot and `a[hi]` no earlier,
      which is what stops the two scans of the partition loop. */
  method MedianOfThree<T(!new)>(a: array<T>, lo: int, hi: int, cmp: Comparer<T>) returns (pivot: T)
    requires 0 <= lo < hi < a.Length
    modifies a
    ensures a[hi - 1] == pivot
    ensures cmp(pivot, a[lo]) >= 0 && cmp(pivot, a[hi]) <= 0
    ensures Permuted(a[..], old(a[..]), lo, hi + 1)
  {
    var mid := lo + (hi - lo) / 2;
    SwapIfGreaterWithItems(a, lo, mid, cmp);
    ghost var lo1, mid1 := a[lo], a[mid];
    SwapIfGreaterWithItems(a, lo, hi, cmp);
    Reflexive(cmp, lo1);
    Trans(cmp, a[lo], lo1, mid1);
    SwapIfGreaterWithItems(a, mid, hi, cmp);
    Antisymmetric(cmp, a[lo], a[mid]);
    pivot := a[mid];
    Swap(a, mid, hi - 1);
  }

  /** Partition's left scan (`++left` while the cell sorts strictly before the
      pivot). It stops at the latest at `right`, whose cell sorts no earlier
      than the pivot. */
  method ScanUp<T>(a: array<T>, lo: int, left: int, right: int, pivot: T, cmp: (T, T) -> int) returns (l: int)
    requires 0 <= lo <= left < right < a.Length
    requires NotAbove(cmp, a[..], lo, left + 1, pivot)
    requires cmp(pivot, a[right]) <= 0
    ensures left < l <= right
    ensures NotAbove(cmp, a[..], lo, l, pivot)
    ensures cmp(pivot, a[l]) <= 0
  {
    l := left + 1;
    while cmp(pivot, a[l]) > 0
      invariant left < l <= right
      invariant NotAbove(cmp, a[..], lo, l, pivot)
      decreases right - l
    {
      l := l + 1;
    }
  }

  /** Partition's right scan (`--right` while the cell sorts strictly after
      the pivot). It stops at the latest at `left - 1`, which the left scan
      has already passed. */
  method ScanDown<T>(a: array<T>, lo: int, left: int, right: int, hi: int, pivot: T, cmp: (T, T) -> int) returns (r: int)
    requires 0 <= lo < left <= right < hi < a.Length
    requires NotAbove(cmp, a[..], lo, left, pivot)
    requires NotBelow(cmp, a[..], right, hi + 1, pivot)
    ensures left - 1 <= r < right
    ensures NotBelow(cmp, a[..], r + 1, hi + 1, pivot)
    ensures cmp(pivot, a[r]) >= 0
  {
    r := right - 1;
    while cmp(pivot, a[r]) < 0
      invariant left - 1 <= r < right
      invariant NotBelow(cmp, a[..], r + 1, hi + 1, pivot)
      decreases r
    {
      r := r - 1;
    }
  }

  /** Every element of `s[from..to]` sorts no later than `v`. */
  ghost predicate NotAbove<T>(cmp: (T, T) -> int, s: seq<T>, from: int, to: int, v: T) {
    forall k :: from <= k < to && 0 <= k < |s| ==> cmp(v, s[k]) >= 0
  }

  /** Every element of `s[from..to]` sorts no earlier than `v`. */
  ghost predicate NotBelow<T>(cmp: (T, T) -> int, s: seq<T>, from: int, to: int, v: T) {
    forall k :: from <= k < to && 0 <= k < |s| ==> cmp(v, s[k]) <= 0
  }

  /** The exchange in Partition's loop: once both scans have stopped with
      `left < right`, swapping the two stopped cells extends both settled
      ranges by one. */
  lemma PartitionExchange<T>(cmp: (T, T) -> int, s: seq<T>, lo: int, left: int, right: int, hi: int, pivot: T)
    requires 0 <= lo <= left < right <= hi < |s|
    requires NotAbove(cmp, s, lo, left, pivot) && cmp(pivot, s[left]) <= 0
    requires NotBelow(cmp, s, right + 1, hi + 1, pivot) && cmp(pivot, s[right]) >= 0
    ensures NotAbove(cmp, Swapped(s, left, right), lo, left + 1, pivot)
    ensures NotBelow(cmp, Swapped(s, left, right), right, hi + 1, pivot)
  {
  }

  /** Whichever way Partition's loop ends, the cells before `left` sort no
      later than the pivot and those from `left` on no earlier, so swapping
      the pivot from `hi - 1` to `left` partitions the range around it. */
  lemma PartitionFinish<T>(cmp: (T, T) -> int, s: seq<T>, r: seq<T>, lo: int, left: int, hi: int, pivot: T)
    requires 0 <= lo <= left <= hi - 1 && hi < |s| && s[hi - 1] == pivot
    requires NotAbove(cmp, s, lo, left, pivot)
    requires NotBelow(cmp, s, left, hi + 1, pivot)
    requires r == Swapped(s, left, hi - 1)
    ensures Permuted(r, s, lo, hi + 1)
    ensures r[left] == pivot
    ensures NotAbove(cmp, r, lo, left, r[left])
    ensures NotBelow(cmp, r, left + 1, hi + 1, r[left])
  {
  }

  /** Moving the hole of InsertionSort one cell left keeps the multiset of the
      array with the hole filled. */
  lemma ShiftIntoHole<T>(s: seq<T>, j: int, t: T)
    requires 0 <= j && j + 1 < |s|
    ensures multiset(s[j + 1 := s[j]][j := t]) == multiset(s[j + 1 := t])
  {
    var filled := s[j + 1 := t];
    assert Swapped(filled, j, j + 1) == s[j + 1 := s[j]][j := t];
  }

  /** `s[from..to]` is in order once the cell `hole` is skipped. */
  ghost predicate SortedAroundHole<T>(cmp: (T, T) -> int, s: seq<T>, from: int, to: int, hole: int) {
    forall x, y :: from <= x < y < to && 0 <= x && y < |s| && x != hole && y != hole ==> cmp(s[x], s[y]) <= 0
  }

  /** `t` sorts strictly before every element of `s[from..to]`. */
  ghost predicate BelowAll<T>(cmp: (T, T) -> int, t: T, s: seq<T>, from: int, to: int) {
    forall y :: from <= y < to && 0 <= y < |s| ==> cmp(t, s[y]) < 0
  }

  /** One shift of InsertionSort's inner loop keeps its invariant, with the
      hole moved one cell to the left. */
  lemma InsertionShift<T(!new)>(cmp: Comparer<T>, s: seq<T>, r: seq<T>, lo: int, i: int, j: int, t: T)
    requires 0 <= lo <= j <= i && i + 1 < |s|
    requires r == s[j + 1 := s[j]]
    requires SortedAroundHole(cmp, s, lo, i + 2, j + 1)
    requires BelowAll(cmp, t, s, j + 2, i + 2)
    requires cmp(t, s[j]) < 0
    ensures SortedAroundHole(cmp, r, lo, i + 2, j)
    ensures BelowAll(cmp, t, r, j + 1, i + 2)
  {
  }

  /** Dropping t into the hole of InsertionSort's inner loop leaves the prefix
      sorted. */
  lemma InsertionPlace<T(!new)>(cmp: Comparer<T>, s: seq<T>, lo: int, i: int, j: int, t: T)
    requires lo - 1 <= j <= i && 0 <= lo && i + 1 < |s|
    requires SortedAroundHole(cmp, s, lo, i + 2, j + 1)
    requires BelowAll(cmp, t, s, j + 2, i + 2)
    requires j >= lo ==> cmp(t, s[j]) >= 0
    ensures Sorted(cmp, s[j + 1 := t], lo, i + 2)
  {
    var r := s[j + 1 := t];
    forall x, y | lo <= x < y < i + 2
      ensures cmp(r[x], r[y]) <= 0
    {
      if y == j + 1 {
        Antisymmetric(cmp, t, s[j]);
        if x < j {
          Trans(cmp, s[x], s[j], t);
        }
      } else if x == j + 1 {
        assert cmp(t, s[y]) < 0;
      }
    }
  }

  /** Sorts `a[lo..hi]` (inclusive) by heapsort: builds a max-heap over the
      range, then repeatedly swaps its root to the end of the shrinking heap
      and repairs the heap. The two loops are BuildHeapPhase and
      SortDownPhase. */
  method HeapSort<T(!new)>(a: array<T>, lo: int, hi: int, cmp: Comparer<T>)
    requires 0 <= lo <= hi < a.Length
    modifies a
    ensures Sorted(cmp, a[..], lo, hi + 1)
    ensures Permuted(a[..], old(a[..]), lo, hi + 1)
  {
    var n := hi - lo + 1;
    BuildHeapPhase(a, lo, n, cmp);
    SortDownPhase(a, lo, n, cmp);
    HeapSortCorrect(cmp, old(a[..]), a[..], lo, hi);
  }

  /** HeapSort's first loop: Heapify on every node that has a child, from
      the last one up to the root. */
  method BuildHeapPhase<T(!new)>(a: array<T>, lo: int, n: int, cmp: Comparer<T>)
    requires 0 <= lo && 1 <= n && lo + n <= a.Length
    modifies a
    ensures a[..] == BuildHeap(cmp, old(a[..]), lo, n, n / 2)
  {
    var i := n / 2;
    while i >= 1
      invariant 0 <= i <= n / 2
      invariant BuildHeap(cmp, a[..], lo, n, i) == BuildHeap(cmp, old(a[..]), lo, n, n / 2)
    {
      Heapify(a, i, n, lo, cmp);
      i := i - 1;
    }
  }

  /** HeapSort's second loop: swap the root to the last cell of the heap,
      then Heapify the root of the heap one cell shorter. */
  method SortDownPhase<T(!new)>(a: array<T>, lo: int, n: int, cmp: Comparer<T>)
    requires 0 <= lo && 1 <= n && lo + n <= a.Length
    modifies a
    ensures a[..] == SortDown(cmp, old(a[..]), lo, n)
  {
    var i := n;
    while i > 1
      invariant 1 <= i <= n
      invariant SortDown(cmp, a[..], lo, i) == SortDown(cmp, old(a[..]), lo, n)
    {
      Swap(a, lo, lo + i - 1);
      Heapify(a, 1, i - 1, lo, cmp);
      i := i - 1;
    }
  }

  /** Sinks the value at node `i` of the `n`-node heap rooted at `lo`: while
      the hole has children, the larger child moves up into it unless it sorts
      strictly before the value, and the value is finally written into the
      hole. The result is Sift of the input, which HeapifyCorrect relates to
      the heap property. */
  method Heapify<T(!new)>(a: array<T>, i: int, n: int, lo: int, cmp: Comparer<T>)
    requires 0 <= lo && 1 <= i <= n && lo + n <= a.Length
    modifies a
    ensures a[..] == Sift(cmp, old(a[..]), lo, n, i, old(a[lo + i - 1]))
  {
    var val := a[lo + i - 1];
    var node := i;
    var child;
    while node <= n / 2
      invariant i <= node <= n
      invariant Sift(cmp, a[..], lo, n, node, val) == Sift(cmp, old(a[..]), lo, n, i, val)
      decreases n - node
    {
      child := 2 * node;
      if child < n && cmp(a[lo + child - 1], a[lo + child]) < 0 {
        child := child + 1;
      }
      if cmp(a[lo + child - 1], val) < 0 {
        SiftStops(cmp, a[..], a[..][lo + node - 1 := val], lo, n, node, val);
        break;
      }
      ghost var s := a[..];
      Store(a, lo + node - 1, a[lo + child - 1]);
      SiftDescends(cmp, s, a[..], lo, n, node, child, val);
      node := child;
    }
    if n / 2 < node {
      SiftStops(cmp, a[..], a[..][lo + node - 1 := val], lo, n, node, val);
    }
    Store(a, lo + node - 1, val);
  }

  /** Writes `v` into `a[k]`, stated as an update of the whole sequence. */
  method Store<T>(a: array<T>, k: int, v: T)
    requires 0 <= k < a.Length
    modifies a
    ensures a[..] == old(a[..])[k := v]
  {
    a[k] := v;
  }
  /** Sorts `a[0..length)` in ascending order under `cmp`: the introsort over
      the whole range, with a depth budget of `2 * Log2Floor(length)`
      partitioning rounds before the heapsort fallback. */
  method IntroSort<T(!new)>(a: array<T>, length: int, cmp: Comparer<T>)
    requires 0 <= length <= a.Length
    modifies a
    ensures Sorted(cmp, a[..], 0, length)
    ensures Permuted(a[..], old(a[..]), 0, length)
  {
    IntroSortRange(a, 0, length - 1, 2 * Log2Floor(length), cmp);
  }

  /** Sorts `a[lo..hi]` (inclusive). While the range holds more than
      IntrosortSizeThreshold elements and the depth budget lasts, it is
      partitioned; the part right of the pivot is sorted by a recursive call
      and the loop goes on with the part left of it. A small range is
      finished by SmallSort, and an exhausted budget hands the range to
      HeapSort. The range shrinks on every round and every call, which is
      what ends the recursion; the depth budget only bounds the running
      time. */
  method IntroSortRange<T(!new)>(a: array<T>, lo: int, hi: int, depth: int, cmp: Comparer<T>)
    requires 0 <= lo <= hi + 1 <= a.Length
    modifies a
    ensures Sorted(cmp, a[..], lo, hi + 1)
    ensures Permuted(a[..], old(a[..]), lo, hi + 1)
    decreases hi - lo + 1
  {
    var h, d := hi, depth;
    // The cells right of h are sorted and sort no earlier than any cell of
    // the part still to be sorted.
    while h > lo
      invariant lo - 1 <= h <= hi
      invariant Permuted(a[..], old(a[..]), lo, hi + 1)
      invariant Sorted(cmp, a[..], h + 1, hi + 1)
      invariant AllBelow(cmp, a[..], lo, h + 1, hi + 1)
      decreases h - lo
    {
      ghost var t := a[..];
      if h - lo + 1 <= IntrosortSizeThreshold {
        SmallSort(a, lo, h, cmp);
        IntroSortFinish(cmp, t, a[..], old(a[..]), lo, h, hi);
        return;
      }
      if d == 0 {
        HeapSort(a, lo, h, cmp);
        IntroSortFinish(cmp, t, a[..], old(a[..]), lo, h, hi);
        return;
      }
      d := d - 1;
      var p := Partition(a, lo, h, cmp);
      ghost var s := a[..];
      IntroSortRange(a, p + 1, h, d, cmp);
      IntroSortStep(cmp, t, s, a[..], old(a[..]), lo, p, h, hi);
      h := p - 1;
    }
    SortedConcat(cmp, a[..], lo, h + 1, hi + 1);
  }

  /** The small-range branch of IntroSortRange: one compare-exchange for
      two elements, a three-element sorting network for three, and
      InsertionSort beyond that. */
  method SmallSort<T(!new)>(a: array<T>, lo: int, hi: int, cmp: Comparer<T>)
    requires 0 <= lo <= hi < a.Length
    modifies a
    ensures Sorted(cmp, a[..], lo, hi + 1)
    ensures Permuted(a[..], old(a[..]), lo, hi + 1)
  {
    var partitionSize := hi - lo + 1;
    if partitionSize == 1 {
      return;
    }
    if partitionSize == 2 {
      SwapIfGreaterWithItems(a, lo, hi, cmp);
      return;
    }
    if partitionSize == 3 {
      SwapIfGreaterWithItems(a, lo, hi - 1, cmp);
      ghost var first, middle := a[lo], a[hi - 1];
      SwapIfGreaterWithItems(a, lo, hi, cmp);
      Reflexive(cmp, first);
      Trans(cmp, a[lo], first, middle);
      SwapIfGreaterWithItems(a, hi - 1, hi, cmp);
      return;
    }
    InsertionSort(a, lo, hi, cmp);
  }

  /** A finished sort of the part `[lo, h]` that IntroSortRange's loop has
      left completes the sort of `[lo, hi]`. */
  lemma IntroSortFinish<T>(cmp: (T, T) -> int, t: seq<T>, s: seq<T>, orig: seq<T>, lo: int, h: int, hi: int)
    requires 0 <= lo <= h <= hi < |t|
    requires Permuted(t, orig, lo, hi + 1)
    requires Sorted(cmp, t, h + 1, hi + 1) && AllBelow(cmp, t, lo, h + 1, hi + 1)
    requires Permuted(s, t, lo, h + 1) && Sorted(cmp, s, lo, h + 1)
    ensures Sorted(cmp, s, lo, hi + 1)
    ensures Permuted(s, orig, lo, hi + 1)
  {
    PermutedKeepsAllBelow(cmp, s, t, lo, h + 1, lo, h + 1, hi + 1);
    SortedConcat(cmp, s, lo, h + 1, hi + 1);
  }

  /** One partitioning round of IntroSortRange keeps its loop invariant with
      `h` moved to `p - 1`: the pivot and the recursively sorted part right
      of it join the sorted suffix, and everything left of the pivot sorts no
      later than all of them. */
  lemma IntroSortStep<T(!new)>(cmp: Comparer<T>, t: seq<T>, s: seq<T>, r: seq<T>, orig: seq<T>, lo: int, p: int, h: int, hi: int)
    requires 0 <= lo <= p < h <= hi < |t|
    requires Permuted(t, orig, lo, hi + 1)
    requires Sorted(cmp, t, h + 1, hi + 1) && AllBelow(cmp, t, lo, h + 1, hi + 1)
    requires Permuted(s, t, lo, h + 1)
    requires NotAbove(cmp, s, lo, p, s[p]) && NotBelow(cmp, s, p + 1, h + 1, s[p])
    requires Permuted(r, s, p + 1, h + 1) && Sorted(cmp, r, p + 1, h + 1)
    ensures Permuted(r, orig, lo, hi + 1)
    ensures Sorted(cmp, r, p, hi + 1)
    ensures AllBelow(cmp, r, lo, p, hi + 1)
  {
    assert Permuted(r, s, lo, h + 1);
    PermutedTrans(r, s, t, lo, h + 1);
    PermutedKeepsAllBelow(cmp, r, t, lo, h + 1, lo, h + 1, hi + 1);
    PermutedKeepsLowerBound(cmp, r, s, p + 1, h + 1, s[p]);
    PivotJoinsSuffix(cmp, r, p, h, hi);
    PivotSplits(cmp, r, lo, p, h, hi);
  }

  /** The pivot at `p`, sorting no later than the sorted run `(p, h]`, joins
      it and the sorted suffix beyond `h` into one sorted run. */
  lemma PivotJoinsSuffix<T(!new)>(cmp: Comparer<T>, r: seq<T>, p: int, h: int, hi: int)
    requires 0 <= p < h <= hi < |r|
    requires forall k :: p + 1 <= k < h + 1 ==> cmp(r[p], r[k]) <= 0
    requires Sorted(cmp, r, p + 1, h + 1) && Sorted(cmp, r, h + 1, hi + 1)
    requires AllBelow(cmp, r, p, h + 1, hi + 1)
    ensures Sorted(cmp, r, p, hi + 1)
  {
    SortedConcat(cmp, r, p, p + 1, h + 1);
    SortedConcat(cmp, r, p, h + 1, hi + 1);
  }

  /** Everything left of the pivot sorts no later than the pivot, hence no
      later than anything from the pivot on. */
  lemma PivotSplits<T(!new)>(cmp: Comparer<T>, r: seq<T>, lo: int, p: int, h: int, hi: int)
    requires 0 <= lo <= p < h <= hi < |r|
    requires NotAbove(cmp, r, lo, p, r[p])
    requires forall k :: p + 1 <= k < h + 1 ==> cmp(r[p], r[k]) <= 0
    requires AllBelow(cmp, r, lo, h + 1, hi + 1)
    ensures AllBelow(cmp, r, lo, p, hi + 1)
  {
    Reflexive(cmp, r[p]);
    forall x, y | lo <= x < p <= y < hi + 1
      ensures cmp(r[x], r[y]) <= 0
    {
      if y <= h {
        Antisymmetric(cmp, r[p], r[x]);
        Trans(cmp, r[x], r[p], r[y]);
      }
    }
  }

  /** Searches the sorted `a[0..length)` for `value` by halving the window
      `[offset, offset + l)`. Returns an index whose element compares equal
      to `value`, or else `~offset` (that is, `-offset - 1`) for the first
      index whose element sorts after `value`. */
  method BinarySearch<T(!new)>(a: array<T>, length: int, value: T, cmp: Comparer<T>) returns (r: int)
    requires 0 <= length <= a.Length
    requires Sorted(cmp, a[..], 0, length)
    ensures 0 <= r ==> r < length && cmp(value, a[r]) == 0
    ensures r < 0 ==> && 0 <= -r - 1 <= length
                      && (forall k :: 0 <= k < -r - 1 ==> cmp(value, a[k]) > 0)
                      && (forall k :: -r - 1 <= k < length ==> cmp(value, a[k]) < 0)
    ensures r < 0 <==> forall k :: 0 <= k < length ==> cmp(value, a[k]) != 0
  {
    var offset := 0;
    var l := length;
    while l != 0
      invariant 0 <= offset && 0 <= l && offset + l <= length
      invariant forall k :: 0 <= k < offset ==> cmp(value, a[k]) > 0
      invariant forall k :: offset + l <= k < length ==> cmp(value, a[k]) < 0
      decreases l
    {
      var idx := offset + l / 2;
      var c := cmp(value, a[idx]);
      if c == 0 {
        return idx;
      }
      if c > 0 {
        SearchAbove(cmp, a[..], length, value, idx);
        offset := idx + 1;
        l := l - 1;
      } else {
        SearchBelow(cmp, a[..], length, value, idx);
      }
      l := l / 2;
    }
    r := -offset - 1;
  }

  /** In a sorted range, a value that sorts after the element at `idx` sorts
      after every element up to `idx`. */
  lemma SearchAbove<T(!new)>(cmp: Comparer<T>, s: seq<T>, length: int, value: T, idx: int)
    requires 0 <= idx < length <= |s| && Sorted(cmp, s, 0, length)
    requires cmp(value, s[idx]) > 0
    ensures forall k :: 0 <= k <= idx ==> cmp(value, s[k]) > 0
  {
    Antisymmetric(cmp, value, s[idx]);
    forall k | 0 <= k <= idx
      ensures cmp(value, s[k]) > 0
    {
      Reflexive(cmp, s[idx]);
      TransStrictRight(cmp, s[k], s[idx], value);
      Antisymmetric(cmp, s[k], value);
    }
  }

  /** In a sorted range, a value that sorts before the element at `idx` sorts
      before every element from `idx` on. */
  lemma SearchBelow<T(!new)>(cmp: Comparer<T>, s: seq<T>, length: int, value: T, idx: int)
    requires 0 <= idx < length <= |s| && Sorted(cmp, s, 0, length)
    requires cmp(value, s[idx]) < 0
    ensures forall k :: idx <= k < length ==> cmp(value, s[k]) < 0
  {
    forall k | idx <= k < length
      ensures cmp(value, s[k]) < 0
    {
      Reflexive(cmp, s[idx]);
      TransStrict(cmp, value, s[idx], s[k]);
    }
  }
}
