/** The two jobs behind NativeSortExtension's SortJob: SegmentSort sorts one
    `width`-wide segment of the buffer, and SegmentSortMerge merges the sorted
    segments through a scratch buffer and copies the result back.

    Segment `i` starts at `i * width` and holds `SegmentLength(length, width, i)`
    elements; the segments tile `[0, length)`. */
module SegmentSort {
  import opened Ordering
  import opened NativeSort

  /** The number of segments, `ceil(length / width)`. */
  function SegmentCount(length: int, width: int): (c: int)
    requires 0 <= length && 0 < width
    ensures 0 <= c && length <= c * width < length + width
  {
    (length + (width - 1)) / width
  }

  /** The length of segment `i`: `width`, except for the last segment, which
      stops at `length`. */
  function SegmentLength(length: int, width: int, i: int): (r: int)
    requires 0 <= length && 0 < width && 0 <= i < SegmentCount(length, width)
    ensures 0 < r <= width
    ensures i * width + r == if i + 1 < SegmentCount(length, width) then (i + 1) * width else length
  {
    var c := SegmentCount(length, width);
    MulSucc(i, width);
    MulSucc(c - 1, width);
    MulMonotonic(i, c - 1, width);
    if length - i * width < width then length - i * width else width
  }

  /** Multiplying by a non-negative factor keeps the order. */
  lemma MulMonotonic(x: int, y: int, w: int)
    requires x <= y && 0 <= w
    ensures x * w <= y * w
  {
    assert y * w - x * w == (y - x) * w;
  }

  /** SegmentSort.Execute: sorts segment `index` of `data[0..length)` with the
      introsort of NativeSort, started on the segment as if it were an array
      of its own (so the depth budget is `2 * Log2Floor` of the segment's
      length). Nothing outside the segment changes. */
  method SortSegment<T(!new)>(data: array<T>, length: int, width: int, index: int, cmp: Comparer<T>)
    requires 0 <= length <= data.Length && 0 < width
    requires 0 <= index < SegmentCount(length, width)
    modifies data
    ensures Sorted(cmp, data[..], index * width, index * width + SegmentLength(length, width, index))
    ensures Permuted(data[..], old(data[..]), index * width, index * width + SegmentLength(length, width, index))
  {
    var startIndex := index * width;
    var segmentLength := SegmentLength(length, width, index);
    IntroSortRange(data, startIndex, startIndex + segmentLength - 1, 2 * Log2Floor(segmentLength), cmp);
  }

  /** `s` cut into consecutive pieces of `width` elements, the last piece
      holding what is left. */
  ghost function Split<T>(s: seq<T>, width: int): (segs: seq<seq<T>>)
    requires 0 < width
    ensures Flatten(segs) == s
    ensures |segs| == 0 <==> |s| == 0
    decreases |s|
  {
    if |s| == 0 then []
    else if |s| <= width then [s]
    else
      var rest := Split(s[width..], width);
      assert Flatten([s[..width]] + rest) == s[..width] + Flatten(rest) by {
        assert ([s[..width]] + rest)[1..] == rest;
      }
      [s[..width]] + rest
  }

  /** The pieces of `segs` joined end to end. */
  ghost function Flatten<T>(segs: seq<seq<T>>): seq<T> {
    if |segs| == 0 then [] else segs[0] + Flatten(segs[1..])
  }

  /** Appending a piece appends its elements. */
  lemma {:induction false} FlattenSnoc<T>(segs: seq<seq<T>>, x: seq<T>)
    ensures Flatten(segs + [x]) == Flatten(segs) + x
  {
    if |segs| > 0 {
      assert (segs + [x])[1..] == segs[1..] + [x];
      FlattenSnoc(segs[1..], x);
    }
  }

  /** Piece `i` of Split starts at `i * width`; it is `width` long except
      for the last piece, which ends at `|s|`. */
  lemma {:induction false} SplitPieceBounds<T>(s: seq<T>, width: int, i: int)
    requires 0 < width && 0 <= i < |Split(s, width)|
    ensures 0 <= i * width && i * width + |Split(s, width)[i]| <= |s|
    ensures i * width + |Split(s, width)[i]| == if i + 1 < |Split(s, width)| then (i + 1) * width else |s|
  {
    if i > 0 {
      var tail := Split(s[width..], width);
      assert Split(s, width) == [s[..width]] + tail;
      SplitPieceBounds(s[width..], width, i - 1);
      MulSucc(i - 1, width);
      MulSucc(i, width);
    }
  }

  /** Piece `i` of Split is the slice of `s` that starts at `i * width`. */
  lemma {:induction false} SplitPiece<T>(s: seq<T>, width: int, i: int, start: int)
    requires 0 < width && 0 <= i < |Split(s, width)| && start == i * width
    ensures 0 <= start && start + |Split(s, width)[i]| <= |s|
    ensures Split(s, width)[i] == s[start..start + |Split(s, width)[i]|]
  {
    if i > 0 {
      var rest := s[width..];
      var tail := Split(rest, width);
      assert Split(s, width) == [s[..width]] + tail;
      var piece := tail[i - 1];
      assert Split(s, width)[i] == piece;
      MulSucc(i - 1, width);
      SplitPiece(rest, width, i - 1, start - width);
      DropSlice(s, width, start - width, start - width + |piece|);
    }
  }

  /** A slice of a suffix is a slice of the whole, shifted. */
  lemma DropSlice<T>(s: seq<T>, w: int, a: int, b: int)
    requires 0 <= w <= |s| && 0 <= a <= b <= |s| - w
    ensures s[w..][a..b] == s[w + a..w + b]
  {
  }

  /** Element `k` of piece `i` is element `i * width + k` of `s`. */
  lemma SegmentElement<T>(s: seq<T>, width: int, i: int, k: int)
    requires 0 < width && 0 <= i < |Split(s, width)| && 0 <= k < |Split(s, width)[i]|
    ensures 0 <= i * width + k < |s| && Split(s, width)[i][k] == s[i * width + k]
  {
    SplitPiece(s, width, i, i * width);
  }

  lemma MulSucc(c: int, w: int)
    ensures (c + 1) * w == c * w + w
  {
  }

  /** A multiple of `width` in `[length, length + width)` is
      `SegmentCount(length, width) * width`. */
  lemma CountUnique(length: int, width: int, c: int)
    requires 0 <= length && 0 < width && length <= c * width < length + width
    ensures c == SegmentCount(length, width)
  {
    var count := SegmentCount(length, width);
    MulSucc(count, width);
    MulSucc(c, width);
    MulCancel(c, count + 1, width);
    MulCancel(count, c + 1, width);
  }

  /** Dividing out a positive factor keeps a strict order. */
  lemma MulCancel(x: int, y: int, w: int)
    requires 0 < w && x * w < y * w
    ensures x < y
  {
    assert (y - x) * w == y * w - x * w;
  }

  /** Split makes just enough pieces of `width` elements to hold `s`. */
  lemma {:induction false} SplitBounds<T>(s: seq<T>, width: int)
    requires 0 < width
    ensures |s| <= |Split(s, width)| * width < |s| + width
    decreases |s|
  {
    if |s| > width {
      SplitBounds(s[width..], width);
      MulSucc(|Split(s[width..], width)|, width);
    }
  }

  /** Split makes exactly SegmentCount pieces. */
  lemma SplitCount<T>(s: seq<T>, width: int)
    requires 0 < width
    ensures |Split(s, width)| == SegmentCount(|s|, width)
  {
    SplitBounds(s, width);
    CountUnique(|s|, width, |Split(s, width)|);
  }

  /** Segment `i` of `s`, as SegmentSort.Execute computes it, is piece `i`
      of Split. */
  lemma SegmentIsPiece<T>(s: seq<T>, width: int, i: int)
    requires 0 < width && 0 <= i < SegmentCount(|s|, width)
    ensures |Split(s, width)| == SegmentCount(|s|, width)
    ensures |Split(s, width)[i]| == SegmentLength(|s|, width, i)
    ensures Split(s, width)[i] == s[i * width..i * width + SegmentLength(|s|, width, i)]
  {
    SplitCount(s, width);
    SplitPieceBounds(s, width, i);
    SplitPiece(s, width, i, i * width);
  }

  /** Every piece is sorted. */
  ghost predicate SegmentsSorted<T>(cmp: (T, T) -> int, segs: seq<seq<T>>) {
    forall i :: 0 <= i < |segs| ==> Sorted(cmp, segs[i], 0, |segs[i]|)
  }

  /** Segments sorted in place, as SortSegment leaves each of them in the
      buffer, are the sorted pieces MergeSegments asks for. */
  lemma SortedSegmentsArePieces<T>(cmp: (T, T) -> int, d: seq<T>, length: int, width: int)
    requires 0 <= length <= |d| && 0 < width
    requires forall i :: 0 <= i < SegmentCount(length, width) ==>
      Sorted(cmp, d, i * width, i * width + SegmentLength(length, width, i))
    ensures SegmentsSorted(cmp, Split(d[..length], width))
  {
    SplitCount(d[..length], width);
    forall i | 0 <= i < |Split(d[..length], width)|
      ensures Sorted(cmp, Split(d[..length], width)[i], 0, |Split(d[..length], width)[i]|)
    {
      SortedPiece(cmp, d, length, width, i);
    }
  }

  /** One segment sorted in place is its piece of Split sorted. */
  lemma SortedPiece<T>(cmp: (T, T) -> int, d: seq<T>, length: int, width: int, i: int)
    requires 0 <= length <= |d| && 0 < width && 0 <= i < SegmentCount(length, width)
    requires Sorted(cmp, d, i * width, i * width + SegmentLength(length, width, i))
    ensures |Split(d[..length], width)| == SegmentCount(length, width)
    ensures Sorted(cmp, Split(d[..length], width)[i], 0, |Split(d[..length], width)[i]|)
  {
    var s := d[..length];
    SegmentIsPiece(s, width, i);
    var a := i * width;
    var b := a + SegmentLength(length, width, i);
    assert Split(s, width)[i] == d[a..b];
    SortedSlice(cmp, d, a, b);
  }

  /** A sorted stretch of a sequence, cut out, is sorted. */
  lemma SortedSlice<T>(cmp: (T, T) -> int, d: seq<T>, a: int, b: int)
    requires 0 <= a <= b <= |d| && Sorted(cmp, d, a, b)
    ensures Sorted(cmp, d[a..b], 0, b - a)
  {
    forall p, q | 0 <= p < q < b - a
      ensures cmp(d[a..b][p], d[a..b][q]) <= 0
    {
      assert d[a..b][p] == d[a + p] && d[a..b][q] == d[a + q];
    }
  }

  /** `idx` holds one read cursor per piece, each between the piece's start
      (0) and its end. */
  ghost predicate Cursors<T>(segs: seq<seq<T>>, idx: seq<int>) {
    && |idx| == |segs|
    && forall i :: 0 <= i < |idx| ==> 0 <= idx[i] <= |segs[i]|
  }

  /** The sum of the first `n` cursors: how many elements have been taken. */
  ghost function Sum(idx: seq<int>, n: int): int
    requires 0 <= n <= |idx|
  {
    if n == 0 then 0 else Sum(idx, n - 1) + idx[n - 1]
  }

  /** The multiset of the elements already taken from the first `n`
      pieces: the prefix of each piece up to its cursor. */
  ghost function Taken<T>(segs: seq<seq<T>>, idx: seq<int>, n: int): multiset<T>
    requires Cursors(segs, idx) && 0 <= n <= |idx|
  {
    if n == 0 then multiset{} else Taken(segs, idx, n - 1) + multiset(segs[n - 1][..idx[n - 1]])
  }

  /** `v` sorts no later than any element that no cursor has passed yet. */
  ghost predicate NotAboveRemaining<T>(cmp: (T, T) -> int, segs: seq<seq<T>>, idx: seq<int>, v: T)
    requires Cursors(segs, idx)
  {
    forall i, k :: 0 <= i < |idx| && idx[i] <= k < |segs[i]| ==> cmp(v, segs[i][k]) <= 0
  }

  /** `v` sorts no later than the head of any of the first `n` pieces that is
      not yet exhausted. */
  ghost predicate NotAboveHeads<T>(cmp: (T, T) -> int, segs: seq<seq<T>>, idx: seq<int>, n: int, v: T)
    requires Cursors(segs, idx) && 0 <= n <= |idx|
  {
    forall i :: 0 <= i < n && idx[i] < |segs[i]| ==> cmp(v, segs[i][idx[i]]) <= 0
  }

  /** The state of the merge loop: `merged` holds exactly the elements the
      cursors have passed, in order, and none of them sorts after an element
      not yet taken. */
  ghost predicate MergeInvariant<T>(cmp: (T, T) -> int, segs: seq<seq<T>>, idx: seq<int>, merged: seq<T>) {
    && Cursors(segs, idx)
    && Sum(idx, |idx|) == |merged|
    && multiset(merged) == Taken(segs, idx, |idx|)
    && Sorted(cmp, merged, 0, |merged|)
    && (0 < |merged| ==> NotAboveRemaining(cmp, segs, idx, merged[|merged| - 1]))
  }

  /** Each of the first `n` cursors is at the end of its piece. */
  ghost predicate Exhausted<T>(segs: seq<seq<T>>, idx: seq<int>, n: int)
    requires Cursors(segs, idx) && 0 <= n <= |idx|
  {
    forall i :: 0 <= i < n ==> idx[i] == |segs[i]|
  }

  /** While fewer elements have been taken than the pieces hold, some
      cursor is still short of the end of its piece. */
  lemma Unfinished<T>(segs: seq<seq<T>>, idx: seq<int>, s: seq<T>)
    requires Cursors(segs, idx) && Flatten(segs) == s && Sum(idx, |idx|) < |s|
    ensures !Exhausted(segs, idx, |idx|)
  {
    SumCovered(segs, idx, |idx|);
    assert segs[..|idx|] == segs;
  }

  /** The first `n + 1` cursors are at their ends exactly when the first
      `n` are and cursor `n` is too. */
  lemma ExhaustedStep<T>(segs: seq<seq<T>>, idx: seq<int>, n: int)
    requires Cursors(segs, idx) && 0 <= n < |idx|
    ensures Exhausted(segs, idx, n + 1) <==> Exhausted(segs, idx, n) && idx[n] == |segs[n]|
  {
  }

  /** The cursors have taken at most the elements of the first `n` pieces,
      and exactly that many when each of them is at the end of its piece. */
  lemma {:induction false} SumCovered<T>(segs: seq<seq<T>>, idx: seq<int>, n: int)
    requires Cursors(segs, idx) && 0 <= n <= |idx|
    ensures Sum(idx, n) <= |Flatten(segs[..n])|
    ensures Sum(idx, n) == |Flatten(segs[..n])| <==> Exhausted(segs, idx, n)
  {
    if n > 0 {
      SumCovered(segs, idx, n - 1);
      assert segs[..n] == segs[..n - 1] + [segs[n - 1]];
      FlattenSnoc(segs[..n - 1], segs[n - 1]);
    }
  }

  /** Cursors at the start of every piece have taken nothing. */
  lemma {:induction false} NothingTaken<T>(segs: seq<seq<T>>, idx: seq<int>, n: int)
    requires Cursors(segs, idx) && 0 <= n <= |idx|
    requires forall i :: 0 <= i < |idx| ==> idx[i] == 0
    ensures Sum(idx, n) == 0 && Taken(segs, idx, n) == multiset{}
  {
    if n > 0 {
      NothingTaken(segs, idx, n - 1);
    }
  }

  /** Cursors at the end of every piece have taken all of the first `n`
      pieces. */
  lemma {:induction false} AllTaken<T>(segs: seq<seq<T>>, idx: seq<int>, n: int)
    requires Cursors(segs, idx) && 0 <= n <= |idx|
    requires Exhausted(segs, idx, n)
    ensures Taken(segs, idx, n) == multiset(Flatten(segs[..n]))
  {
    if n > 0 {
      AllTaken(segs, idx, n - 1);
      assert segs[n - 1][..idx[n - 1]] == segs[n - 1];
      assert segs[..n] == segs[..n - 1] + [segs[n - 1]];
      FlattenSnoc(segs[..n - 1], segs[n - 1]);
    }
  }

  /** Advancing cursor `b` by one keeps every cursor inside its piece and
      adds one to the number taken. */
  lemma {:induction false} AdvanceCursor<T>(segs: seq<seq<T>>, idx: seq<int>, next: seq<int>, b: int, n: int)
    requires Cursors(segs, idx) && 0 <= n <= |idx|
    requires 0 <= b < |idx| && idx[b] < |segs[b]| && next == idx[b := idx[b] + 1]
    ensures Cursors(segs, next)
    ensures b < n ==> Sum(next, n) == Sum(idx, n) + 1
    ensures n <= b ==> Sum(next, n) == Sum(idx, n)
  {
    if n > 0 {
      AdvanceCursor(segs, idx, next, b, n - 1);
    }
  }

  /** Advancing cursor `b` leaves what the pieces before `b` gave up as it
      was. */
  lemma {:induction false} TakenBefore<T>(segs: seq<seq<T>>, idx: seq<int>, next: seq<int>, b: int, n: int)
    requires Cursors(segs, idx) && Cursors(segs, next) && 0 <= n <= b < |idx|
    requires next == idx[b := idx[b] + 1]
    ensures Taken(segs, next, n) == Taken(segs, idx, n)
  {
    if n > 0 {
      TakenBefore(segs, idx, next, b, n - 1);
      assert next[n - 1] == idx[n - 1];
    }
  }

  /** Advancing cursor `b` by one takes its piece's next element. */
  lemma {:induction false} TakeOne<T>(segs: seq<seq<T>>, idx: seq<int>, next: seq<int>, b: int, n: int)
    requires Cursors(segs, idx) && Cursors(segs, next) && 0 <= b < n <= |idx|
    requires idx[b] < |segs[b]| && next == idx[b := idx[b] + 1]
    ensures Taken(segs, next, n) == Taken(segs, idx, n) + multiset{segs[b][idx[b]]}
  {
    if b == n - 1 {
      TakenBefore(segs, idx, next, b, b);
      assert segs[b][..next[b]] == segs[b][..idx[b]] + [segs[b][idx[b]]];
    } else {
      TakeOne(segs, idx, next, b, n - 1);
      assert next[n - 1] == idx[n - 1];
    }
  }

  /** SegmentSortMerge.Execute: repeatedly takes the earliest head of the
      segments that still have elements (FindNextBest) into a scratch buffer,
      then copies the buffer back over `data[0..length)`. With every segment
      sorted beforehand, the whole range ends up sorted. The cursor array is
      zero-initialised, as C# zeroes stack-allocated memory. */
  method MergeSegments<T(0, !new)>(data: array<T>, length: int, width: int, cmp: Comparer<T>)
    requires 0 <= length <= data.Length && 0 < width
    requires SegmentsSorted(cmp, Split(data[..length], width))
    modifies data
    ensures Sorted(cmp, data[..], 0, length)
    ensures Permuted(data[..], old(data[..]), 0, length)
  {
    var resultCopy := MergeIntoCopy(data, length, width, cmp, Split(data[..length], width));
    ghost var result := resultCopy[..];
    CopyBack(data, resultCopy, length);
    MergeFinish(cmp, old(data[..]), result, data[..], length);
  }

  /** The merge loop of SegmentSortMerge.Execute: fills a fresh buffer with
      the elements of `data[0..length)` in sorted order, leaving `data`
      untouched. */
  method MergeIntoCopy<T(0, !new)>(data: array<T>, length: int, width: int, cmp: Comparer<T>, ghost segs: seq<seq<T>>)
    returns (resultCopy: array<T>)
    requires 0 <= length <= data.Length && 0 < width
    requires segs == Split(data[..length], width) && SegmentsSorted(cmp, segs)
    ensures fresh(resultCopy) && resultCopy.Length == length
    ensures Sorted(cmp, resultCopy[..], 0, length)
    ensures multiset(resultCopy[..]) == multiset(data[..length])
  {
    SplitCount(data[..length], width);
    var segmentCount := SegmentCount(length, width);
    var segmentIndex := new int[segmentCount](_ => 0);
    resultCopy := new T[length];
    NothingTaken(segs, segmentIndex[..], segmentCount);
    var sortIndex := 0;
    ghost var cursors, merged := segmentIndex[..], resultCopy[..0];
    while sortIndex < length
      modifies segmentIndex, resultCopy
      invariant 0 <= sortIndex <= length && segs == Split(data[..length], width)
      invariant segmentIndex as object != resultCopy as object
      invariant segmentIndex[..] == cursors && resultCopy[..sortIndex] == merged
      invariant MergeInvariant(cmp, segs, cursors, merged)
    {
      ghost var next, v := MergeRound(data, length, width, segmentIndex, resultCopy, sortIndex, cmp, segs, cursors, merged);
      cursors, merged := next, merged + [v];
      sortIndex := sortIndex + 1;
    }
    AllMerged(segs, cursors, merged, data[..length]);
    assert resultCopy[..] == resultCopy[..length];
  }

  /** One pass of the outer loop of SegmentSortMerge.Execute: finds the
      earliest head, advances its segment's cursor and appends it to the
      buffer, keeping the merge invariant. */
  method MergeRound<T(0, !new)>(data: array<T>, length: int, width: int, segmentIndex: array<int>, resultCopy: array<T>,
                                sortIndex: int, cmp: Comparer<T>, ghost segs: seq<seq<T>>, ghost cursors: seq<int>, ghost merged: seq<T>)
    returns (ghost next: seq<int>, ghost v: T)
    requires 0 <= sortIndex < length <= data.Length && 0 < width && resultCopy.Length == length
    requires segs == Split(data[..length], width) && SegmentsSorted(cmp, segs)
    requires segmentIndex as object != resultCopy as object
    requires segmentIndex[..] == cursors && resultCopy[..sortIndex] == merged
    requires MergeInvariant(cmp, segs, cursors, merged)
    modifies segmentIndex, resultCopy
    ensures segmentIndex[..] == next && resultCopy[..sortIndex + 1] == merged + [v]
    ensures MergeInvariant(cmp, segs, next, merged + [v])
  {
    Unfinished(segs, cursors, data[..length]);
    var bestSegmentIndex, bestValue := FindNextBest(data, length, width, segmentIndex, cmp, segs);
    next, v := cursors[bestSegmentIndex := cursors[bestSegmentIndex] + 1], bestValue;
    MergeStep(cmp, segs, cursors, next, merged, bestSegmentIndex, bestValue);
    Record(segmentIndex, resultCopy, bestSegmentIndex, sortIndex, bestValue, cursors, merged);
  }

  /** When every element has been taken, `merged` is a rearrangement of the
      elements the pieces came from. */
  lemma AllMerged<T>(segs: seq<seq<T>>, idx: seq<int>, merged: seq<T>, s: seq<T>)
    requires Cursors(segs, idx) && Flatten(segs) == s
    requires Sum(idx, |idx|) == |merged| == |s| && multiset(merged) == Taken(segs, idx, |idx|)
    ensures multiset(merged) == multiset(s)
  {
    SumCovered(segs, idx, |idx|);
    assert segs[..|idx|] == segs;
    AllTaken(segs, idx, |idx|);
  }

  /** One round's writes: the cursor of the segment the chosen value came
      from moves past it, and the value goes to `resultCopy[k]`. */
  method Record<T>(segmentIndex: array<int>, resultCopy: array<T>, b: int, k: int, v: T, ghost cursors: seq<int>, ghost merged: seq<T>)
    requires 0 <= b < segmentIndex.Length && 0 <= k < resultCopy.Length
    requires segmentIndex as object != resultCopy as object
    requires segmentIndex[..] == cursors && resultCopy[..k] == merged
    modifies segmentIndex, resultCopy
    ensures segmentIndex[..] == cursors[b := cursors[b] + 1]
    ensures resultCopy[..k + 1] == merged + [v]
  {
    segmentIndex[b] := segmentIndex[b] + 1;
    resultCopy[k] := v;
    assert resultCopy[..k + 1] == resultCopy[..k] + [v];
  }

  /** The final MemCpy of SegmentSortMerge.Execute: the scratch buffer
      replaces `data[0..length)`. */
  method CopyBack<T>(data: array<T>, resultCopy: array<T>, length: int)
    requires 0 <= length <= data.Length && length <= resultCopy.Length && data != resultCopy
    modifies data
    ensures data[..] == resultCopy[..length] + old(data[..])[length..]
  {
    forall k | 0 <= k < length {
      data[k] := resultCopy[k];
    }
  }

  /** A sorted rearrangement of `d[0..length)` written over it leaves
      `d[0..length)` sorted and permuted. */
  lemma MergeFinish<T>(cmp: (T, T) -> int, d: seq<T>, result: seq<T>, r: seq<T>, length: int)
    requires 0 <= length == |result| <= |d|
    requires multiset(result) == multiset(d[..length])
    requires Sorted(cmp, result, 0, length)
    requires r == result + d[length..]
    ensures Sorted(cmp, r, 0, length)
    ensures Permuted(r, d, 0, length)
  {
    assert d == d[..length] + d[length..];
  }

  /** The inner loop of SegmentSortMerge.Execute: scans the segments in order
      and keeps the head that sorts earliest among those of the segments not
      yet exhausted; on a tie the later segment wins. Returns -1 when every
      segment is exhausted. */
  method FindNextBest<T(0, !new)>(data: array<T>, length: int, width: int, segmentIndex: array<int>, cmp: Comparer<T>, ghost segs: seq<seq<T>>)
    returns (bestSegmentIndex: int, bestValue: T)
    requires 0 <= length <= data.Length && 0 < width
    requires segs == Split(data[..length], width) && Cursors(segs, segmentIndex[..])
    ensures bestSegmentIndex == -1 <==> Exhausted(segs, segmentIndex[..], |segs|)
    ensures bestSegmentIndex != -1 ==>
      && 0 <= bestSegmentIndex < segmentIndex.Length
      && segmentIndex[bestSegmentIndex] < |segs[bestSegmentIndex]|
      && bestValue == segs[bestSegmentIndex][segmentIndex[bestSegmentIndex]]
      && NotAboveHeads(cmp, segs, segmentIndex[..], segmentIndex.Length, bestValue)
  {
    ghost var idx := segmentIndex[..];
    SplitCount(data[..length], width);
    var segmentCount := SegmentCount(length, width);
    bestSegmentIndex := -1;
    bestValue := *;  // default(T)
    var i := 0;
    while i < segmentCount
      invariant 0 <= i <= segmentCount
      invariant BestSoFar(cmp, segs, idx, i, bestSegmentIndex, bestValue)
    {
      bestSegmentIndex, bestValue := ConsiderSegment(data, length, width, segmentIndex, cmp, segs, i, bestSegmentIndex, bestValue);
      i := i + 1;
    }
  }

  /** One pass of the inner loop: segment `i`'s head replaces the best so
      far unless the segment is exhausted or its head sorts later. */
  method ConsiderSegment<T(0, !new)>(data: array<T>, length: int, width: int, segmentIndex: array<int>,
                                     cmp: Comparer<T>, ghost segs: seq<seq<T>>, i: int, best: int, v: T)
    returns (best': int, v': T)
    requires 0 <= length <= data.Length && 0 < width
    requires segs == Split(data[..length], width) && Cursors(segs, segmentIndex[..])
    requires 0 <= i < |segs| && BestSoFar(cmp, segs, segmentIndex[..], i, best, v)
    ensures BestSoFar(cmp, segs, segmentIndex[..], i + 1, best', v')
    ensures var taken := segmentIndex[i] < |segs[i]| && (best == -1 || cmp(segs[i][segmentIndex[i]], v) <= 0);
      (taken ==> best' == i && v' == segs[i][segmentIndex[i]]) && (!taken ==> best' == best && v' == v)
  {
    ghost var idx := segmentIndex[..];
    var exhausted, nextValue := ReadHead(data, length, width, segmentIndex, segs, i);
    if exhausted {
      SkipExhausted(cmp, segs, idx, i, best, v);
      return best, v;
    }
    if best != -1 && cmp(nextValue, v) > 0 {
      SkipLater(cmp, segs, idx, i, best, v);
      return best, v;
    }
    TakeHead(cmp, segs, idx, i, best, v);
    best', v' := i, nextValue;
  }

  /** The head of segment `i`: its cursor `offset` against the segment's
      length, and `Data[startIndex + offset]` when the segment has one. */
  method ReadHead<T(0)>(data: array<T>, length: int, width: int, segmentIndex: array<int>,
                     ghost segs: seq<seq<T>>, i: int)
    returns (exhausted: bool, nextValue: T)
    requires 0 <= length <= data.Length && 0 < width
    requires segs == Split(data[..length], width) && Cursors(segs, segmentIndex[..])
    requires 0 <= i < |segs|
    ensures exhausted <==> segmentIndex[i] == |segs[i]|
    ensures !exhausted ==> segmentIndex[i] < |segs[i]| && nextValue == segs[i][segmentIndex[i]]
  {
    SplitCount(data[..length], width);
    var startIndex := i * width;
    var offset := segmentIndex[i];
    var segmentLength := SegmentLength(length, width, i);
    SegmentIsPiece(data[..length], width, i);
    exhausted := offset == segmentLength;
    nextValue := *;
    if !exhausted {
      SegmentElement(data[..length], width, i, offset);
      nextValue := data[startIndex + offset];
    }
  }

  /** After scanning pieces `0..i`: `best` is -1 exactly when all of them are
      exhausted, and otherwise names a piece whose head `v` sorts no later
      than any of their heads. */
  ghost predicate BestSoFar<T>(cmp: (T, T) -> int, segs: seq<seq<T>>, idx: seq<int>, i: int, best: int, v: T)
    requires Cursors(segs, idx) && 0 <= i <= |idx|
  {
    && (best == -1 <==> Exhausted(segs, idx, i))
    && (best != -1 ==>
      && 0 <= best < i
      && idx[best] < |segs[best]|
      && v == segs[best][idx[best]]
      && NotAboveHeads(cmp, segs, idx, i, v))
  }

  /** An exhausted piece changes nothing. */
  lemma SkipExhausted<T>(cmp: (T, T) -> int, segs: seq<seq<T>>, idx: seq<int>, i: int, best: int, v: T)
    requires Cursors(segs, idx) && 0 <= i < |idx| && idx[i] == |segs[i]|
    requires BestSoFar(cmp, segs, idx, i, best, v)
    ensures BestSoFar(cmp, segs, idx, i + 1, best, v)
  {
    ExhaustedStep(segs, idx, i);
    if best != -1 {
      KeepBest(cmp, segs, idx, i, v);
    }
  }

  /** A head that sorts strictly after the best one changes nothing. */
  lemma SkipLater<T(!new)>(cmp: Comparer<T>, segs: seq<seq<T>>, idx: seq<int>, i: int, best: int, v: T)
    requires Cursors(segs, idx) && 0 <= i < |idx| && idx[i] < |segs[i]|
    requires BestSoFar(cmp, segs, idx, i, best, v)
    requires best != -1 && cmp(segs[i][idx[i]], v) > 0
    ensures BestSoFar(cmp, segs, idx, i + 1, best, v)
  {
    ExhaustedStep(segs, idx, i);
    Antisymmetric(cmp, segs[i][idx[i]], v);
    KeepBest(cmp, segs, idx, i, v);
  }

  /** The first head seen, or one that sorts no later than the best so far,
      becomes the best. */
  lemma TakeHead<T(!new)>(cmp: Comparer<T>, segs: seq<seq<T>>, idx: seq<int>, i: int, best: int, v: T)
    requires Cursors(segs, idx) && 0 <= i < |idx| && idx[i] < |segs[i]|
    requires BestSoFar(cmp, segs, idx, i, best, v)
    requires best != -1 ==> cmp(segs[i][idx[i]], v) <= 0
    ensures BestSoFar(cmp, segs, idx, i + 1, i, segs[i][idx[i]])
  {
    ExhaustedStep(segs, idx, i);
    TakeEarlier(cmp, segs, idx, i, best, v);
  }

  /** The best head so far stays best when piece `i` is exhausted or its
      head sorts no earlier. */
  lemma KeepBest<T>(cmp: (T, T) -> int, segs: seq<seq<T>>, idx: seq<int>, i: int, bestValue: T)
    requires Cursors(segs, idx) && 0 <= i < |idx|
    requires NotAboveHeads(cmp, segs, idx, i, bestValue)
    requires idx[i] < |segs[i]| ==> cmp(bestValue, segs[i][idx[i]]) <= 0
    ensures NotAboveHeads(cmp, segs, idx, i + 1, bestValue)
  {
  }

  /** A head that sorts no later than the best one seen so far (or the first
      head seen at all) is the best among pieces `0..i`. */
  lemma TakeEarlier<T(!new)>(cmp: Comparer<T>, segs: seq<seq<T>>, idx: seq<int>, i: int, best: int, bestValue: T)
    requires Cursors(segs, idx)
    requires 0 <= i < |idx| && idx[i] < |segs[i]|
    requires best == -1 ==> Exhausted(segs, idx, i)
    requires best != -1 ==> (NotAboveHeads(cmp, segs, idx, i, bestValue) && cmp(segs[i][idx[i]], bestValue) <= 0)
    ensures NotAboveHeads(cmp, segs, idx, i + 1, segs[i][idx[i]])
  {
    var v := segs[i][idx[i]];
    Reflexive(cmp, v);
    forall j | 0 <= j < i + 1 && idx[j] < |segs[j]|
      ensures cmp(v, segs[j][idx[j]]) <= 0
    {
      if j < i {
        Trans(cmp, v, bestValue, segs[j][idx[j]]);
      }
    }
  }

  /** One round of the merge keeps its invariant: taking the earliest head
      `v` from piece `best` extends the sorted output by `v`, moves `v` from
      the remaining elements to the taken ones, and `v` sorts no later than
      everything that remains. */
  lemma MergeStep<T(!new)>(cmp: Comparer<T>, segs: seq<seq<T>>, idx: seq<int>, next: seq<int>, merged: seq<T>, best: int, v: T)
    requires MergeInvariant(cmp, segs, idx, merged) && SegmentsSorted(cmp, segs)
    requires 0 <= best < |idx| && idx[best] < |segs[best]| && v == segs[best][idx[best]]
    requires NotAboveHeads(cmp, segs, idx, |idx|, v)
    requires next == idx[best := idx[best] + 1]
    ensures MergeInvariant(cmp, segs, next, merged + [v])
  {
    AdvanceCursor(segs, idx, next, best, |idx|);
    TakeOne(segs, idx, next, best, |idx|);
    MergeKeepsOrder(cmp, segs, idx, merged, best, v);
    RemainingAfterTake(cmp, segs, idx, next, best, v);
  }

  /** The element taken sorts no earlier than the one taken before it. */
  lemma MergeKeepsOrder<T(!new)>(cmp: Comparer<T>, segs: seq<seq<T>>, idx: seq<int>, res: seq<T>, best: int, v: T)
    requires Cursors(segs, idx)
    requires Sorted(cmp, res, 0, |res|)
    requires 0 < |res| ==> NotAboveRemaining(cmp, segs, idx, res[|res| - 1])
    requires 0 <= best < |idx| && idx[best] < |segs[best]| && v == segs[best][idx[best]]
    ensures Sorted(cmp, res + [v], 0, |res| + 1)
  {
    var r := res + [v];
    if 0 < |res| {
      var last := res[|res| - 1];
      assert cmp(last, v) <= 0;
      forall x, y | 0 <= x < y < |r|
        ensures cmp(r[x], r[y]) <= 0
      {
        if y == |res| && x < |res| - 1 {
          Trans(cmp, r[x], last, v);
        }
      }
    }
  }

  /** After piece `best` gives up its head `v`, every element still to be
      taken sorts no earlier than `v`: each lies at or after a head no
      earlier than `v`, and the pieces are sorted. */
  lemma RemainingAfterTake<T(!new)>(cmp: Comparer<T>, segs: seq<seq<T>>, idx: seq<int>, next: seq<int>, best: int, v: T)
    requires Cursors(segs, idx) && Cursors(segs, next) && SegmentsSorted(cmp, segs)
    requires 0 <= best < |idx| && idx[best] < |segs[best]| && v == segs[best][idx[best]]
    requires NotAboveHeads(cmp, segs, idx, |idx|, v)
    requires next == idx[best := idx[best] + 1]
    ensures NotAboveRemaining(cmp, segs, next, v)
  {
    Reflexive(cmp, v);
    forall i, k | 0 <= i < |next| && next[i] <= k < |segs[i]|
      ensures cmp(v, segs[i][k]) <= 0
    {
      if idx[i] < k {
        assert Sorted(cmp, segs[i], 0, |segs[i]|);
        Trans(cmp, v, segs[i][idx[i]], segs[i][k]);
      }
    }
  }
}
