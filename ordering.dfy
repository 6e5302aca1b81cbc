/** The comparer laws that the sorting and searching routines of NativeSort rely
    on, and the predicates their contracts are written with.

    A comparer is an `IComparer<T>`: `cmp(x, y)` is negative, zero or positive as
    `x` sorts before, together with or after `y`.  Ranges are half-open
    `[from, to)` throughout this module. */
module Ordering {

  /** `cmp` describes a total preorder: swapping the arguments flips the sign,
      and "sorts no later than" (`cmp(x, y) <= 0`) is transitive.  Both laws
      are only instantiated through lemmas (Antisymmetric and Trans; their
      triggers are the markers Before and Chain), which keeps the solver from
      relating every pair of comparisons in the larger proofs. */
  ghost predicate IsComparer<T(!new)>(cmp: (T, T) -> int) {
    && (forall x, y {:trigger Before(cmp, x, y)} :: Before(cmp, x, y) <==> cmp(y, x) > 0)
    && (forall x, y, z {:trigger Chain(cmp, x, y, z)} :: cmp(x, y) <= 0 && cmp(y, z) <= 0 ==> cmp(x, z) <= 0)
  }

  /** The comparers that obey those laws. The constant comparer, which puts
      every pair together, is one. */
  type Comparer<!T(!new)> = cmp: (T, T) -> int | IsComparer(cmp) witness (x: T, y: T) => 0

  /** `x` sorts strictly before `y`; the marker term of the antisymmetry
      law of IsComparer. */
  ghost predicate Before<T>(cmp: (T, T) -> int, x: T, y: T) {
    cmp(x, y) < 0
  }

  /** Marker term for the transitivity law of IsComparer. */
  ghost predicate Chain<T>(cmp: (T, T) -> int, x: T, y: T, z: T) {
    cmp(x, y) <= 0 && cmp(y, z) <= 0
  }

  lemma Antisymmetric<T(!new)>(cmp: Comparer<T>, x: T, y: T)
    ensures cmp(x, y) < 0 <==> cmp(y, x) > 0
    ensures cmp(x, y) == 0 <==> cmp(y, x) == 0
  {
    assert Before(cmp, x, y) <==> cmp(y, x) > 0;
    assert Before(cmp, y, x) <==> cmp(x, y) > 0;
  }

  lemma Trans<T(!new)>(cmp: Comparer<T>, x: T, y: T, z: T)
    requires cmp(x, y) <= 0 && cmp(y, z) <= 0
    ensures cmp(x, z) <= 0
  {
    assert Chain(cmp, x, y, z);
  }

  /** Transitivity with a strict first step. */
  lemma TransStrict<T(!new)>(cmp: Comparer<T>, x: T, y: T, z: T)
    requires cmp(x, y) < 0 && cmp(y, z) <= 0
    ensures cmp(x, z) < 0
  {
    Trans(cmp, x, y, z);
    if cmp(x, z) == 0 {
      Antisymmetric(cmp, x, z);
      Antisymmetric(cmp, x, y);
      Trans(cmp, y, z, x);
    }
  }

  /** Transitivity with a strict second step. */
  lemma TransStrictRight<T(!new)>(cmp: Comparer<T>, x: T, y: T, z: T)
    requires cmp(x, y) <= 0 && cmp(y, z) < 0
    ensures cmp(x, z) < 0
  {
    Trans(cmp, x, y, z);
    if cmp(x, z) == 0 {
      Antisymmetric(cmp, x, z);
      Antisymmetric(cmp, y, z);
      Trans(cmp, z, x, y);
    }
  }

  /** `s[from..to]` is in ascending order under `cmp`. */
  ghost predicate Sorted<T>(cmp: (T, T) -> int, s: seq<T>, from: int, to: int) {
    forall i, j :: from <= i < j < to && 0 <= i && j < |s| ==> cmp(s[i], s[j]) <= 0
  }

  /** `s` is a rearrangement of `t` that moved nothing outside `[from, to)`. */
  ghost predicate Permuted<T>(s: seq<T>, t: seq<T>, from: int, to: int) {
    && |s| == |t|
    && multiset(s) == multiset(t)
    && forall k :: 0 <= k < |s| && !(from <= k < to) ==> s[k] == t[k]
  }

  lemma Reflexive<T(!new)>(cmp: Comparer<T>, x: T)
    ensures cmp(x, x) == 0
  {
    Antisymmetric(cmp, x, x);
  }

  /** Permutations compose, and the range of the outer one may be widened. */
  lemma PermutedTrans<T>(s: seq<T>, t: seq<T>, u: seq<T>, from: int, to: int)
    requires Permuted(s, t, from, to) && Permuted(t, u, from, to)
    ensures Permuted(s, u, from, to)
  {
  }

  /** A permutation confined to `[from, to)` permutes that slice as well. */
  lemma {:induction false} PermutedSlice<T>(s: seq<T>, t: seq<T>, from: int, to: int)
    requires Permuted(s, t, from, to)
    requires 0 <= from <= to <= |s|
    ensures multiset(s[from..to]) == multiset(t[from..to])
  {
    assert s == s[..from] + s[from..to] + s[to..];
    assert t == t[..from] + t[from..to] + t[to..];
    assert s[..from] == t[..from];
    assert s[to..] == t[to..];
    calc {
      multiset(s[from..to]);
      multiset(s) - multiset(s[..from]) - multiset(s[to..]);
      multiset(t) - multiset(t[..from]) - multiset(t[to..]);
      multiset(t[from..to]);
    }
  }

  /** Every value inside the permuted range came from somewhere inside it. */
  lemma PermutedSource<T>(s: seq<T>, t: seq<T>, from: int, to: int, k: int)
    requires Permuted(s, t, from, to)
    requires 0 <= from <= k < to <= |s|
    ensures exists j :: from <= j < to && s[k] == t[j]
  {
    PermutedSlice(s, t, from, to);
    assert s[k] == s[from..to][k - from];
    assert s[k] in multiset(t[from..to]);
    var j :| from <= j < to && t[j] == s[k];
  }

  /** Every value outside the permuted range that bounds all of the range from
      above still does so afterwards. */
  lemma PermutedKeepsUpperBound<T>(cmp: (T, T) -> int, s: seq<T>, t: seq<T>, from: int, to: int, v: T)
    requires Permuted(s, t, from, to) && 0 <= from <= to <= |s|
    requires forall j :: from <= j < to ==> cmp(t[j], v) <= 0
    ensures forall k :: from <= k < to ==> cmp(s[k], v) <= 0
  {
    forall k | from <= k < to
      ensures cmp(s[k], v) <= 0
    {
      PermutedSource(s, t, from, to, k);
    }
  }

  /** The mirror image of PermutedKeepsUpperBound. */
  lemma PermutedKeepsLowerBound<T>(cmp: (T, T) -> int, s: seq<T>, t: seq<T>, from: int, to: int, v: T)
    requires Permuted(s, t, from, to) && 0 <= from <= to <= |s|
    requires forall j :: from <= j < to ==> cmp(v, t[j]) <= 0
    ensures forall k :: from <= k < to ==> cmp(v, s[k]) <= 0
  {
    forall k | from <= k < to
      ensures cmp(v, s[k]) <= 0
    {
      PermutedSource(s, t, from, to, k);
    }
  }

  /** `s` with the cells `i` and `j` exchanged and every other cell kept
      (SwappedPermuted: the same multiset). */
  function Swapped<T>(s: seq<T>, i: int, j: int): (r: seq<T>)
    requires 0 <= i < |s| && 0 <= j < |s|
    ensures |r| == |s| && r[i] == s[j] && r[j] == s[i]
    ensures forall k :: 0 <= k < |s| && k != i && k != j ==> r[k] == s[k]
  {
    s[i := s[j]][j := s[i]]
  }

  /** Exchanging two cells of a range permutes that range. */
  lemma SwappedPermuted<T>(s: seq<T>, i: int, j: int, from: int, to: int)
    requires 0 <= from <= i < to <= |s| && from <= j < to
    ensures Permuted(Swapped(s, i, j), s, from, to)
  {
  }

  /** Every element of `s[lo..mid]` sorts no later than every element of
      `s[mid..hi]`. */
  ghost predicate AllBelow<T>(cmp: (T, T) -> int, s: seq<T>, lo: int, mid: int, hi: int) {
    forall x, y :: lo <= x < mid <= y < hi && 0 <= x && y < |s| ==> cmp(s[x], s[y]) <= 0
  }

  /** Two sorted runs, the first entirely below the second, make one sorted
      run. */
  lemma SortedConcat<T>(cmp: (T, T) -> int, s: seq<T>, lo: int, mid: int, hi: int)
    requires lo <= mid <= hi
    requires Sorted(cmp, s, lo, mid) && Sorted(cmp, s, mid, hi)
    requires AllBelow(cmp, s, lo, mid, hi)
    ensures Sorted(cmp, s, lo, hi)
  {
  }

  /** Rearranging a range that lies inside `[lo, mid)` keeps every element of
      `[lo, mid)` below every element of `[mid, hi)`, and leaves `[mid, hi)`
      sorted if it was. */
  lemma PermutedKeepsAllBelow<T>(cmp: (T, T) -> int, s: seq<T>, t: seq<T>, from: int, to: int, lo: int, mid: int, hi: int)
    requires Permuted(s, t, from, to)
    requires 0 <= lo <= from <= to <= mid <= hi <= |s|
    requires AllBelow(cmp, t, lo, mid, hi)
    ensures AllBelow(cmp, s, lo, mid, hi)
    ensures Sorted(cmp, t, mid, hi) ==> Sorted(cmp, s, mid, hi)
  {
    forall x, y | lo <= x < mid <= y < hi
      ensures cmp(s[x], s[y]) <= 0
    {
      if from <= x < to {
        PermutedSource(s, t, from, to, x);
      }
    }
  }
}
