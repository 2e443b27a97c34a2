/** The merge of two adjacent ascending runs, as std::inplace_merge performs it. */
module Merging {
  import opened Records

  /** The merge of l (the left run) and r (the right run): the next output record is
      the head of r only when it is strictly less than the head of l, so on a tie the
      record of the left run is taken first. */
  function Merge(l: seq<Pair>, r: seq<Pair>): (m: seq<Pair>)
    ensures |m| == |l| + |r|
    decreases |l| + |r|
  {
    if l == [] then r
    else if r == [] then l
    else if Less(r[0], l[0]) then [r[0]] + Merge(l, r[1..])
    else [l[0]] + Merge(l[1..], r)
  }

  /** One step of the merge, read off a suffix of each run: while the left run is not
      exhausted and the head of the right run is not strictly less, the head of the left
      run comes next; otherwise the head of the right run does. */
  lemma MergeStep(l: seq<Pair>, i: nat, r: seq<Pair>, j: nat)
    requires i <= |l| && j <= |r| && (i < |l| || j < |r|)
    ensures i < |l| && (j == |r| || !Less(r[j], l[i])) ==>
              Merge(l[i..], r[j..]) == [l[i]] + Merge(l[i + 1..], r[j..])
    ensures !(i < |l| && (j == |r| || !Less(r[j], l[i]))) ==>
              Merge(l[i..], r[j..]) == [r[j]] + Merge(l[i..], r[j + 1..])
  {
    if i < |l| {
      assert l[i..][0] == l[i] && l[i..][1..] == l[i + 1..];
    }
    if j < |r| {
      assert r[j..][0] == r[j] && r[j..][1..] == r[j + 1..];
    }
  }

  /** The merge is a permutation of the union of the two runs. */
  lemma {:induction false} MergePermutes(l: seq<Pair>, r: seq<Pair>)
    ensures multiset(Merge(l, r)) == multiset(l) + multiset(r)
    decreases |l| + |r|
  {
    if l == [] || r == [] {
    } else if Less(r[0], l[0]) {
      MergePermutes(l, r[1..]);
      assert Merge(l, r) == [r[0]] + Merge(l, r[1..]);
      MultisetOfCons(r);
    } else {
      MergePermutes(l[1..], r);
      assert Merge(l, r) == [l[0]] + Merge(l[1..], r);
      MultisetOfCons(l);
    }
  }

  /** The records of a non-empty sequence are its head and the records of its tail. */
  lemma MultisetOfCons(s: seq<Pair>)
    requires s != []
    ensures multiset(s) == multiset{s[0]} + multiset(s[1..])
  {
    assert s == [s[0]] + s[1..];
  }

  /** A lower bound of both runs is a lower bound of their merge. */
  lemma {:induction false} MergeBounded(b: Pair, l: seq<Pair>, r: seq<Pair>)
    requires AllAtLeast(b, l) && AllAtLeast(b, r)
    ensures AllAtLeast(b, Merge(l, r))
    decreases |l| + |r|
  {
    if l == [] || r == [] {
    } else if Less(r[0], l[0]) {
      MergeBounded(b, l, r[1..]);
      var m := Merge(l, r[1..]);
      assert forall i :: 1 <= i <= |m| ==> ([r[0]] + m)[i] == m[i - 1];
    } else {
      MergeBounded(b, l[1..], r);
      var m := Merge(l[1..], r);
      assert forall i :: 1 <= i <= |m| ==> ([l[0]] + m)[i] == m[i - 1];
    }
  }

  /** Prepending a record no larger than every record keeps a run ascending. */
  lemma ConsSorted(x: Pair, s: seq<Pair>)
    requires Sorted(s) && AllAtLeast(x, s)
    ensures Sorted([x] + s)
  {
    var t := [x] + s;
    forall i, j | 0 <= i < j < |t| ensures LessEq(t[i], t[j]) {
      assert t[j] == s[j - 1];
      if i > 0 {
        assert t[i] == s[i - 1];
      }
    }
  }

  /** Merging two ascending runs yields an ascending run. */
  lemma {:induction false} MergeSorted(l: seq<Pair>, r: seq<Pair>)
    requires Sorted(l) && Sorted(r)
    ensures Sorted(Merge(l, r))
    decreases |l| + |r|
  {
    if l == [] || r == [] {
    } else if Less(r[0], l[0]) {
      MergeSorted(l, r[1..]);
      MergeBounded(r[0], l, r[1..]);
      ConsSorted(r[0], Merge(l, r[1..]));
    } else {
      MergeSorted(l[1..], r);
      MergeBounded(l[0], l[1..], r);
      ConsSorted(l[0], Merge(l[1..], r));
    }
  }

  /** The records of s whose key (first component) is k, in their order in s. */
  function WithKey(s: seq<Pair>, k: int32): seq<Pair>
  {
    if s == [] then []
    else (if s[0].first == k then [s[0]] else []) + WithKey(s[1..], k)
  }

  /** WithKey of a sequence with a given head. */
  lemma WithKeyCons(x: Pair, s: seq<Pair>, k: int32)
    ensures WithKey([x] + s, k) == (if x.first == k then [x] else []) + WithKey(s, k)
  {
    assert ([x] + s)[1..] == s;
  }

  /** Every record of the left run precedes, in std::pair order, every record of the
      right run with the same key. The benchmark's input has this property for the two
      halves of every split: each record carries its original index as second
      component, and the left half holds the smaller indices. */
  predicate LeftWinsKeyTies(l: seq<Pair>, r: seq<Pair>) {
    forall i, j :: 0 <= i < |l| && 0 <= j < |r| && l[i].first == r[j].first ==> Less(l[i], r[j])
  }

  /** An ascending run that starts above a record y with key k, and whose records with
      key k would all precede y, holds no record with key k. */
  lemma {:induction false} NoneWithKey(s: seq<Pair>, y: Pair)
    requires Sorted(s)
    requires s != [] ==> Less(y, s[0])
    requires forall i :: 0 <= i < |s| && s[i].first == y.first ==> Less(s[i], y)
    ensures WithKey(s, y.first) == []
  {
    if s != [] {
      if |s| > 1 {
        assert LessEq(s[0], s[1]);
      }
      NoneWithKey(s[1..], y);
    }
  }

  /** Dropping the head of the right run keeps the runs' hypotheses. */
  lemma DropRightHead(l: seq<Pair>, r: seq<Pair>)
    requires r != [] && Sorted(r) && LeftWinsKeyTies(l, r)
    ensures Sorted(r[1..]) && LeftWinsKeyTies(l, r[1..])
  {
    forall i, j | 0 <= i < j < |r[1..]| ensures LessEq(r[1..][i], r[1..][j]) {
      assert r[1..][i] == r[i + 1] && r[1..][j] == r[j + 1];
    }
    forall i, j | 0 <= i < |l| && 0 <= j < |r[1..]| && l[i].first == r[1..][j].first
      ensures Less(l[i], r[1..][j])
    {
      assert r[1..][j] == r[j + 1];
    }
  }

  /** Dropping the head of the left run keeps the runs' hypotheses. */
  lemma DropLeftHead(l: seq<Pair>, r: seq<Pair>)
    requires l != [] && Sorted(l) && LeftWinsKeyTies(l, r)
    ensures Sorted(l[1..]) && LeftWinsKeyTies(l[1..], r)
  {
    forall i, j | 0 <= i < j < |l[1..]| ensures LessEq(l[1..][i], l[1..][j]) {
      assert l[1..][i] == l[i + 1] && l[1..][j] == l[j + 1];
    }
    forall i, j | 0 <= i < |l[1..]| && 0 <= j < |r| && l[1..][i].first == r[j].first
      ensures Less(l[1..][i], r[j])
    {
      assert l[1..][i] == l[i + 1];
    }
  }

  /** When the head of the right run is taken first, no record of the left run shares
      its key. */
  lemma RightHeadKeyAbsentLeft(l: seq<Pair>, r: seq<Pair>)
    requires l != [] && r != [] && Sorted(l) && LeftWinsKeyTies(l, r) && Less(r[0], l[0])
    ensures WithKey(l, r[0].first) == []
  {
    assert forall i :: 0 <= i < |l| && l[i].first == r[0].first ==> Less(l[i], r[0]);
    NoneWithKey(l, r[0]);
  }

  /** Stability of the merge: when the left run wins every key tie, the records with
      key k come out as those of the left run, in their order, followed by those of the
      right run, in their order. */
  lemma {:induction false} MergeStable(l: seq<Pair>, r: seq<Pair>, k: int32)
    requires Sorted(l) && Sorted(r)
    requires LeftWinsKeyTies(l, r)
    ensures WithKey(Merge(l, r), k) == WithKey(l, k) + WithKey(r, k)
    decreases |l| + |r|
  {
    if l == [] || r == [] {
    } else if Less(r[0], l[0]) {
      DropRightHead(l, r);
      MergeStable(l, r[1..], k);
      if r[0].first == k {
        RightHeadKeyAbsentLeft(l, r);
      }
      RightHeadStep(l, r, k);
    } else {
      DropLeftHead(l, r);
      MergeStable(l[1..], r, k);
      LeftHeadStep(l, r, k);
    }
  }

  /** The step of MergeStable where the head of the right run is output. */
  lemma RightHeadStep(l: seq<Pair>, r: seq<Pair>, k: int32)
    requires l != [] && r != [] && Less(r[0], l[0])
    requires WithKey(Merge(l, r[1..]), k) == WithKey(l, k) + WithKey(r[1..], k)
    requires r[0].first == k ==> WithKey(l, k) == []
    ensures WithKey(Merge(l, r), k) == WithKey(l, k) + WithKey(r, k)
  {
    var head := if r[0].first == k then [r[0]] else [];
    assert Merge(l, r) == [r[0]] + Merge(l, r[1..]);
    WithKeyCons(r[0], Merge(l, r[1..]), k);
    assert WithKey(r, k) == head + WithKey(r[1..], k);
    SwapEmptyPrefix(head, WithKey(l, k), WithKey(r[1..], k));
  }

  /** Moving one of two blocks, one of them empty, past the other. */
  lemma SwapEmptyPrefix(h: seq<Pair>, s: seq<Pair>, t: seq<Pair>)
    requires h == [] || s == []
    ensures h + (s + t) == s + (h + t)
  {
    if h == [] {
      assert h + (s + t) == s + t;
      assert h + t == t;
    } else {
      assert s + t == t;
      assert s + (h + t) == h + t;
    }
  }

  /** The step of MergeStable where the head of the left run is output. */
  lemma LeftHeadStep(l: seq<Pair>, r: seq<Pair>, k: int32)
    requires l != [] && r != [] && !Less(r[0], l[0])
    requires WithKey(Merge(l[1..], r), k) == WithKey(l[1..], k) + WithKey(r, k)
    ensures WithKey(Merge(l, r), k) == WithKey(l, k) + WithKey(r, k)
  {
    var head := if l[0].first == k then [l[0]] else [];
    assert Merge(l, r) == [l[0]] + Merge(l[1..], r);
    WithKeyCons(l[0], Merge(l[1..], r), k);
    assert WithKey(l, k) == head + WithKey(l[1..], k);
    AppendAssociates(head, WithKey(l[1..], k), WithKey(r, k));
  }

  /** Concatenation is associative. */
  lemma AppendAssociates(s: seq<Pair>, t: seq<Pair>, u: seq<Pair>)
    ensures s + (t + u) == (s + t) + u
  {
  }
}
