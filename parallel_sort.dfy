/** The depth-bounded divide-and-conquer stable sort of src/parallelstablesort.cpp.
    The four variants there (std::thread, TBB, OpenMP, Cilk) share one recursion and
    differ only in how the two recursive calls run concurrently; since the two halves
    are disjoint, each is modelled here as the left call followed by the right call. */
module ParallelSort {
  import opened Records
  import opened Merging
  import opened SortSpec

  /** Recursion depth up to which the sort splits the range (THRESHOLD). */
  const THRESHOLD: int := 3

  /** The concurrency primitive a variant uses to run its two recursive calls. It does
      not change what is computed. */
  datatype Backend = Thread | Tbb | OpenMp | Cilk

  /** 2 to the power n, and 1 for n <= 0. */
  function Pow2(n: int): (r: nat)
    ensures r >= 1
    decreases n
  {
    if n <= 0 then 1 else 2 * Pow2(n - 1)
  }

  /** The split point first + len / 2 of a range [lo, hi) of at least two elements. */
  function Middle(lo: int, hi: int): (mid: int)
    requires lo + 2 <= hi
    ensures lo < mid < hi
    ensures mid - lo <= hi - mid <= mid - lo + 1
  {
    lo + (hi - lo) / 2
  }

  /** The number of segments a call on a range of len elements at recursion depth depth
      hands to the leaf stable sort. */
  function Leaves(len: nat, depth: int, threshold: int): nat
    decreases len
  {
    if len <= 1 then 0
    else if depth + 1 <= threshold then
      Leaves(len / 2, depth + 1, threshold) + Leaves(len - len / 2, depth + 1, threshold)
    else 1
  }

  /** The leaves of a split range are those of its two halves. */
  lemma LeavesOfSplit(lo: int, mid: int, hi: int, depth: int, threshold: int)
    requires lo + 2 <= hi && mid == Middle(lo, hi) && depth + 1 <= threshold
    ensures Leaves(hi - lo, depth, threshold)
              == Leaves(mid - lo, depth + 1, threshold) + Leaves(hi - mid, depth + 1, threshold)
  {
    var len := hi - lo;
    assert mid - lo == len / 2 && hi - mid == len - len / 2;
  }

  /** Depth gating bounds the fan-out: a call at depth depth produces at most
      2^(threshold - depth) leaf segments, so the sort started at depth 0 produces at
      most 2^threshold of them. */
  lemma {:induction false} LeavesBounded(len: nat, depth: int, threshold: int)
    ensures Leaves(len, depth, threshold) <= Pow2(threshold - depth)
    decreases len
  {
    if len > 1 && depth + 1 <= threshold {
      LeavesBounded(len / 2, depth + 1, threshold);
      LeavesBounded(len - len / 2, depth + 1, threshold);
      LeavesOfHalves(len, depth, threshold);
      Pow2Step(threshold - depth);
    }
  }

  /** One doubling step of Pow2. */
  lemma Pow2Step(n: int)
    requires n >= 1
    ensures Pow2(n) == 2 * Pow2(n - 1)
  {
  }

  /** Unfolds Leaves for a range that is split: both halves are shorter. */
  lemma LeavesOfHalves(len: nat, depth: int, threshold: int)
    requires len > 1 && depth + 1 <= threshold
    ensures len / 2 < len && len - len / 2 < len
    ensures Leaves(len, depth, threshold)
              == Leaves(len / 2, depth + 1, threshold) + Leaves(len - len / 2, depth + 1, threshold)
  {
  }

  /** The bound is reached: a range of at least 2^(threshold - depth + 1) elements is
      split all the way down to the threshold. */
  lemma {:induction false} LeavesExact(len: nat, depth: int, threshold: int)
    requires depth <= threshold
    requires len >= 2 * Pow2(threshold - depth)
    ensures Leaves(len, depth, threshold) == Pow2(threshold - depth)
    decreases len
  {
    if depth + 1 <= threshold {
      Pow2Step(threshold - depth);
      LeavesExact(len / 2, depth + 1, threshold);
      LeavesExact(len - len / 2, depth + 1, threshold);
      LeavesOfHalves(len, depth, threshold);
    }
  }

  /** Swaps two neighbouring elements. */
  method SwapAdjacent(a: array<Pair>, j: int)
    requires 0 < j < a.Length
    modifies a
    ensures a[j - 1] == old(a[j]) && a[j] == old(a[j - 1])
    ensures forall k :: 0 <= k < a.Length && k != j - 1 && k != j ==> a[k] == old(a[k])
    ensures multiset(a[..]) == multiset(old(a[..]))
  {
    a[j - 1], a[j] := a[j], a[j - 1];
  }

  /** A permutation of the whole array that leaves everything outside [lo, hi) in place
      is a permutation of [lo, hi). */
  lemma SegmentMultiset(s: seq<Pair>, t: seq<Pair>, lo: int, hi: int)
    requires 0 <= lo <= hi <= |s| == |t|
    requires multiset(s) == multiset(t)
    requires forall k :: 0 <= k < |s| && !(lo <= k < hi) ==> s[k] == t[k]
    ensures multiset(s[lo..hi]) == multiset(t[lo..hi])
  {
    assert s[..lo] == t[..lo];
    assert s[hi..] == t[hi..];
    MultisetOfThree(s, lo, hi);
    MultisetOfThree(t, lo, hi);
    assert multiset(s[lo..hi]) == multiset(s) - multiset(s[..lo]) - multiset(s[hi..]);
  }

  /** The records of [lo, hi) are those of the whole sequence less those around it. */
  lemma MultisetOfThree(s: seq<Pair>, lo: int, hi: int)
    requires 0 <= lo <= hi <= |s|
    ensures multiset(s[lo..hi]) == multiset(s) - multiset(s[..lo]) - multiset(s[hi..])
  {
    assert s == s[..lo] + s[lo..hi] + s[hi..];
  }

  /** The leaf stable sort standing in for std::stable_sort(first, last): an insertion
      sort of [lo, hi) by swaps of neighbours, which never moves an element past an
      equal one. */
  method LeafSort(a: array<Pair>, lo: int, hi: int)
    requires 0 <= lo <= hi <= a.Length
    modifies a
    ensures a[lo..hi] == StableSort(old(a[lo..hi]))
    ensures forall k :: 0 <= k < a.Length && !(lo <= k < hi) ==> a[k] == old(a[k])
  {
    var i := lo;
    while i < hi
      invariant lo <= i <= hi
      invariant forall p, q :: lo <= p < q < i ==> LessEq(a[p], a[q])
      invariant multiset(a[..]) == multiset(old(a[..]))
      invariant forall k :: 0 <= k < a.Length && !(lo <= k < hi) ==> a[k] == old(a[k])
    {
      InsertLast(a, lo, i);
      i := i + 1;
    }
    SortedSegmentIsStableSort(a[..], old(a[..]), lo, hi);
    assert a[lo..hi] == a[..][lo..hi];
    assert old(a[lo..hi]) == old(a[..])[lo..hi];
  }

  /** One pass of the insertion sort: moves a[i] down past every greater record of the
      ascending run [lo, i), so that [lo, i] is ascending. */
  method InsertLast(a: array<Pair>, lo: int, i: int)
    requires 0 <= lo <= i < a.Length
    requires forall p, q :: lo <= p < q < i ==> LessEq(a[p], a[q])
    modifies a
    ensures forall p, q :: lo <= p < q <= i ==> LessEq(a[p], a[q])
    ensures multiset(a[..]) == multiset(old(a[..]))
    ensures forall k :: 0 <= k < a.Length && !(lo <= k <= i) ==> a[k] == old(a[k])
  {
    var j := i;
    while j > lo && Less(a[j], a[j - 1])
      invariant lo <= j <= i
      invariant forall p, q :: lo <= p < q <= i && p != j && q != j ==> LessEq(a[p], a[q])
      invariant forall q :: j < q <= i ==> Less(a[j], a[q])
      invariant multiset(a[..]) == multiset(old(a[..]))
      invariant forall k :: 0 <= k < a.Length && !(lo <= k <= i) ==> a[k] == old(a[k])
    {
      SwapAdjacent(a, j);
      j := j - 1;
    }
  }

  /** A permutation of t that is ascending on [lo, hi) and agrees with t elsewhere holds,
      on [lo, hi), the reference sort of t's records there. */
  lemma SortedSegmentIsStableSort(s: seq<Pair>, t: seq<Pair>, lo: int, hi: int)
    requires 0 <= lo <= hi <= |s| == |t|
    requires multiset(s) == multiset(t)
    requires forall k :: 0 <= k < |s| && !(lo <= k < hi) ==> s[k] == t[k]
    requires forall p, q :: lo <= p < q < hi ==> LessEq(s[p], s[q])
    ensures s[lo..hi] == StableSort(t[lo..hi])
  {
    SegmentMultiset(s, t, lo, hi);
    assert Sorted(s[lo..hi]) by {
      forall p, q | 0 <= p < q < hi - lo ensures LessEq(s[lo..hi][p], s[lo..hi][q]) {
        assert s[lo..hi][p] == s[lo + p] && s[lo..hi][q] == s[lo + q];
      }
    }
    StableSortCharacterised(t[lo..hi], s[lo..hi]);
  }

  /** The merge standing in for std::inplace_merge(first, middle, last): the runs
      [lo, mid) and [mid, hi) are merged into a buffer, taking the left record on ties,
      and the buffer is copied back over [lo, hi). */
  method MergeRuns(a: array<Pair>, lo: int, mid: int, hi: int)
    requires 0 <= lo <= mid <= hi <= a.Length
    modifies a
    ensures a[lo..hi] == Merge(old(a[lo..mid]), old(a[mid..hi]))
    ensures forall k :: 0 <= k < a.Length && !(lo <= k < hi) ==> a[k] == old(a[k])
  {
    var buffer := MergeIntoBuffer(a[lo..mid], a[mid..hi]);
    var k := lo;
    while k < hi
      invariant lo <= k <= hi
      invariant forall p :: lo <= p < k ==> a[p] == buffer[p - lo]
      invariant forall p :: 0 <= p < a.Length && !(lo <= p < hi) ==> a[p] == old(a[p])
    {
      a[k] := buffer[k - lo];
      k := k + 1;
    }
    assert a[lo..hi] == buffer by {
      forall p | 0 <= p < hi - lo ensures a[lo..hi][p] == buffer[p] {
        assert a[lo..hi][p] == a[lo + p];
      }
    }
  }

  /** The merging loop: walks both runs once, appending the head of the right run only
      when it is strictly less than the head of the left run. */
  method MergeIntoBuffer(left: seq<Pair>, right: seq<Pair>) returns (buffer: seq<Pair>)
    ensures buffer == Merge(left, right)
  {
    buffer := [];
    var i, j := 0, 0;
    while i < |left| || j < |right|
      invariant 0 <= i <= |left| && 0 <= j <= |right|
      invariant buffer + Merge(left[i..], right[j..]) == Merge(left, right)
      decreases |left| - i + |right| - j
    {
      MergeStep(left, i, right, j);
      var x;
      if i < |left| && (j == |right| || !Less(right[j], left[i])) {
        x := left[i];
        i := i + 1;
      } else {
        x := right[j];
        j := j + 1;
      }
      AppendAssociates(buffer, [x], Merge(left[i..], right[j..]));
      buffer := buffer + [x];
    }
  }

  /** The recursive sort (stable_sort_thread and its TBB, OpenMP and Cilk twins) on
      [lo, hi) at recursion depth depth: a range of at most one element is left alone;
      otherwise the depth is incremented and, while it is within threshold, the range is
      split at lo + len / 2, both halves are sorted and then merged; past the threshold
      the leaf stable sort handles the whole range. The result is the reference stable
      sort of the range whatever the threshold and the backend, nothing outside the range
      is written, and leaves counts the segments given to the leaf sort. */
  method SortRange(a: array<Pair>, lo: int, hi: int, depth: int, threshold: int, backend: Backend)
      returns (ghost leaves: nat)
    requires 0 <= lo <= hi <= a.Length
    modifies a
    ensures a[lo..hi] == StableSort(old(a[lo..hi]))
    ensures forall k :: 0 <= k < a.Length && !(lo <= k < hi) ==> a[k] == old(a[k])
    ensures leaves == Leaves(hi - lo, depth, threshold)
    ensures hi - lo <= 1 ==> a[..] == old(a[..])
    decreases hi - lo, 1
  {
    if hi - lo <= 1 {
      StableSortCharacterised(a[lo..hi], a[lo..hi]);
      leaves := 0;
      return;
    }
    var reci := depth + 1;
    if reci <= threshold {
      var mid := Middle(lo, hi);
      leaves := SortHalves(a, lo, mid, hi, reci, threshold, backend);
      LeavesOfSplit(lo, mid, hi, depth, threshold);
    } else {
      LeafSort(a, lo, hi);
      leaves := 1;
    }
  }

  /** The split branch of the recursive sort at the incremented depth reci: sorts
      [lo, mid), then [mid, hi) (the two calls the backend runs concurrently), then
      merges the two sorted runs. */
  method SortHalves(a: array<Pair>, lo: int, mid: int, hi: int, reci: int, threshold: int,
                    backend: Backend) returns (ghost leaves: nat)
    requires 0 <= lo < mid < hi <= a.Length
    modifies a
    ensures a[lo..hi] == StableSort(old(a[lo..hi]))
    ensures forall k :: 0 <= k < a.Length && !(lo <= k < hi) ==> a[k] == old(a[k])
    ensures leaves == Leaves(mid - lo, reci, threshold) + Leaves(hi - mid, reci, threshold)
    decreases hi - lo, 0
  {
    ghost var leftIn, rightIn := a[lo..mid], a[mid..hi];
    assert old(a[lo..hi]) == leftIn + rightIn;
    ghost var leftLeaves := SortRange(a, lo, mid, reci, threshold, backend);
    assert a[mid..hi] == rightIn;
    ghost var leftOut := a[lo..mid];
    ghost var rightLeaves := SortRange(a, mid, hi, reci, threshold, backend);
    assert a[lo..mid] == leftOut;
    MergeRuns(a, lo, mid, hi);
    StableSortOfHalves(leftIn, rightIn);
    leaves := leftLeaves + rightLeaves;
  }

  /** The public entry point of every variant: sorts the whole vector starting at
      recursion depth 0 with the benchmark's THRESHOLD, so at most 2^THRESHOLD = 8
      segments reach the leaf sort. */
  method ParallelStableSort(a: array<Pair>, backend: Backend) returns (ghost leaves: nat)
    modifies a
    ensures a[..] == StableSort(old(a[..]))
    ensures KeyTiesInOrder(old(a[..])) ==> forall k :: WithKey(a[..], k) == WithKey(old(a[..]), k)
    ensures leaves <= 8
  {
    ghost var input := a[..];
    assert input == a[0..a.Length];
    leaves := SortRange(a, 0, a.Length, 0, THRESHOLD, backend);
    assert a[..] == a[0..a.Length];
    LeavesBounded(a.Length, 0, THRESHOLD);
    if KeyTiesInOrder(input) {
      StableSortKeepsEveryKeyOrder(input);
    }
  }

  /** A fresh array holding the records of s (the benchmark's std::vector). */
  method ArrayOf(s: seq<Pair>) returns (v: array<Pair>)
    ensures fresh(v) && v[..] == s
  {
    v := new Pair[|s|](i requires 0 <= i < |s| => s[i]);
  }

  /** Sorts a copy of s with the given backend and threshold, starting at depth 0. */
  method SortCopy(s: seq<Pair>, backend: Backend, threshold: int) returns (r: seq<Pair>)
    ensures r == StableSort(s)
  {
    var v := ArrayOf(s);
    var _ := SortRange(v, 0, v.Length, 0, threshold, backend);
    assert v[..] == v[0..v.Length];
    assert s == s[0..|s|];
    r := v[..];
  }

  /** The recursion depth at which splitting stops does not change the result: sorting
      copies of the same input with any two thresholds gives the same sequence, an
      ascending permutation of the input that keeps each key's records in input order
      when its key ties are in index order. The backend is carried but never read by the
      recursion, so agreement between two backends holds by construction; the content
      here is agreement between two thresholds. */
  method SortTwoWays(s: seq<Pair>, b1: Backend, t1: int, b2: Backend, t2: int)
      returns (r1: seq<Pair>, r2: seq<Pair>)
    ensures r1 == r2
    ensures Sorted(r1) && multiset(r1) == multiset(s)
    ensures KeyTiesInOrder(s) ==> forall k :: WithKey(r1, k) == WithKey(s, k)
  {
    r1 := SortCopy(s, b1, t1);
    r2 := SortCopy(s, b2, t2);
    StableSortSortsAndPermutes(s);
    if KeyTiesInOrder(s) {
      StableSortKeepsEveryKeyOrder(s);
    }
  }
}
