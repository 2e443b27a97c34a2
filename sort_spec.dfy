/** The plain sequential stable sort that every backend must agree with, and what
    "sorted" and "stable" mean for the benchmark's records. */
module SortSpec {
  import opened Records
  import opened Merging

  /** Inserts x into s after every element that is not greater than it. */
  function Insert(x: Pair, s: seq<Pair>): seq<Pair>
  {
    if s == [] then [x]
    else if Less(x, s[0]) then [x] + s
    else [s[0]] + Insert(x, s[1..])
  }

  /** A plain sequential stable sort (insertion sort): the reference every
      variant of the parallel sort is compared with. */
  function StableSort(s: seq<Pair>): seq<Pair>
  {
    if s == [] then [] else Insert(s[|s| - 1], StableSort(s[..|s| - 1]))
  }

  /** The tail of an ascending sequence is ascending and bounded below by the head. */
  lemma SortedTail(s: seq<Pair>)
    requires Sorted(s) && s != []
    ensures Sorted(s[1..]) && AllAtLeast(s[0], s[1..])
  {
    var t := s[1..];
    forall i, j | 0 <= i < j < |t| ensures LessEq(t[i], t[j]) {
      assert t[i] == s[i + 1] && t[j] == s[j + 1];
    }
    forall i | 0 <= i < |t| ensures LessEq(s[0], t[i]) {
      assert t[i] == s[i + 1];
    }
  }

  /** Inserting into an ascending sequence keeps it ascending and adds exactly x. */
  lemma {:induction false} InsertSorted(x: Pair, s: seq<Pair>)
    requires Sorted(s)
    ensures Sorted(Insert(x, s))
    ensures multiset(Insert(x, s)) == multiset(s) + multiset{x}
  {
    if s == [] {
    } else if Less(x, s[0]) {
      SortedTail(s);
      assert AllAtLeast(x, s) by {
        forall i | 0 <= i < |s| ensures LessEq(x, s[i]) {
          assert LessEq(s[0], s[i]) || i == 0;
        }
      }
      ConsSorted(x, s);
    } else {
      SortedTail(s);
      InsertSorted(x, s[1..]);
      assert s == [s[0]] + s[1..];
      var t := Insert(x, s[1..]);
      assert AllAtLeast(s[0], t) by {
        forall i | 0 <= i < |t| ensures LessEq(s[0], t[i]) {
          assert t[i] in multiset(t);
          assert t[i] == x || t[i] in multiset(s[1..]);
          if t[i] != x {
            var j :| 0 <= j < |s[1..]| && s[1..][j] == t[i];
          }
        }
      }
      ConsSorted(s[0], t);
    }
  }

  /** The reference sort yields an ascending permutation of its input. */
  lemma {:induction false} StableSortSortsAndPermutes(s: seq<Pair>)
    ensures Sorted(StableSort(s))
    ensures multiset(StableSort(s)) == multiset(s)
  {
    if s != [] {
      var init := s[..|s| - 1];
      StableSortSortsAndPermutes(init);
      InsertSorted(s[|s| - 1], StableSort(init));
      assert s == init + [s[|s| - 1]];
    }
  }

  /** The records of the tail are those of the sequence less its head. */
  lemma MultisetOfTail(s: seq<Pair>)
    requires s != []
    ensures multiset(s[1..]) == multiset(s) - multiset{s[0]}
  {
    assert s == [s[0]] + s[1..];
  }

  /** Two ascending sequences holding the same records start with the same record. */
  lemma SortedHeadsEqual(s: seq<Pair>, t: seq<Pair>)
    requires Sorted(s) && Sorted(t)
    requires multiset(s) == multiset(t) && s != [] && t != []
    ensures s[0] == t[0]
  {
    assert s[0] in multiset(t);
    var j :| 0 <= j < |t| && t[j] == s[0];
    assert t[0] in multiset(s);
    var i :| 0 <= i < |s| && s[i] == t[0];
    assert LessEq(t[0], t[j]) || j == 0;
    assert LessEq(s[0], s[i]) || i == 0;
  }

  /** Two ascending sequences holding the same records are equal: operator< is total
      and its ties are identical records. */
  lemma {:induction false} SortedPermutationUnique(s: seq<Pair>, t: seq<Pair>)
    requires Sorted(s) && Sorted(t)
    requires multiset(s) == multiset(t)
    ensures s == t
  {
    assert |s| == |multiset(s)| == |multiset(t)| == |t|;
    if s != [] {
      SortedHeadsEqual(s, t);
      MultisetOfTail(s);
      MultisetOfTail(t);
      SortedTail(s);
      SortedTail(t);
      SortedPermutationUnique(s[1..], t[1..]);
    }
  }

  /** What the reference sort computes: the one ascending permutation of its input.
      Any result that is ascending and holds the same records equals it. */
  lemma StableSortCharacterised(s: seq<Pair>, t: seq<Pair>)
    ensures t == StableSort(s) <==> Sorted(t) && multiset(t) == multiset(s)
  {
    StableSortSortsAndPermutes(s);
    if Sorted(t) && multiset(t) == multiset(s) {
      SortedPermutationUnique(t, StableSort(s));
    }
  }

  /** Divide and conquer is sound: merging the sorted halves of a sequence, left half
      first, gives the reference sort of the whole sequence. */
  lemma StableSortOfHalves(l: seq<Pair>, r: seq<Pair>)
    ensures Merge(StableSort(l), StableSort(r)) == StableSort(l + r)
  {
    StableSortSortsAndPermutes(l);
    StableSortSortsAndPermutes(r);
    MergeSorted(StableSort(l), StableSort(r));
    MergePermutes(StableSort(l), StableSort(r));
    StableSortCharacterised(l + r, Merge(StableSort(l), StableSort(r)));
  }

  /** Idempotence: sorting leaves exactly the ascending inputs unchanged, and sorting
      twice is sorting once. */
  lemma StableSortIdempotent(s: seq<Pair>)
    ensures StableSort(s) == s <==> Sorted(s)
    ensures StableSort(StableSort(s)) == StableSort(s)
  {
    StableSortCharacterised(s, s);
    StableSortSortsAndPermutes(s);
    StableSortCharacterised(StableSort(s), StableSort(s));
  }

  /** No two positions of s hold the same record. */
  predicate Distinct(s: seq<Pair>) {
    forall i, j :: 0 <= i < j < |s| ==> s[i] != s[j]
  }

  /** A sequence without repeated records holds each record at most once. */
  lemma {:induction false} DistinctCountsAtMostOne(s: seq<Pair>, x: Pair)
    requires Distinct(s)
    ensures multiset(s)[x] <= 1
  {
    if s != [] {
      var init := s[..|s| - 1];
      assert s == init + [s[|s| - 1]];
      assert Distinct(init) by {
        forall i, j | 0 <= i < j < |init| ensures init[i] != init[j] {
          assert init[i] == s[i] && init[j] == s[j];
        }
      }
      DistinctCountsAtMostOne(init, x);
    }
  }

  /** A record found at two positions is counted at least twice. */
  lemma RepeatCountsTwice(s: seq<Pair>, p: int, q: int)
    requires 0 <= p < q < |s| && s[p] == s[q]
    ensures multiset(s)[s[p]] >= 2
  {
    assert s == s[..q] + s[q..];
    assert s[..q][p] == s[p];
    assert s[q..][0] == s[q];
  }

  /** Records with equal keys appear in increasing order of their second components, the
      original indices the benchmark tags them with. */
  predicate KeyTiesInOrder(s: seq<Pair>) {
    forall p, q :: 0 <= p < q < |s| && s[p].first == s[q].first ==> s[p].second < s[q].second
  }

  /** The sort orders key ties by index: when no record is repeated (the benchmark's
      second components are distinct indices in every input mode), records with equal
      keys come out in increasing order of their indices. */
  lemma StableSortOrdersKeyTies(s: seq<Pair>)
    requires Distinct(s)
    ensures KeyTiesInOrder(StableSort(s))
  {
    var r := StableSort(s);
    StableSortSortsAndPermutes(s);
    forall p, q | 0 <= p < q < |r| && r[p].first == r[q].first
      ensures r[p].second < r[q].second
    {
      assert LessEq(r[p], r[q]);
      if r[p] == r[q] {
        RepeatCountsTwice(r, p, q);
        DistinctCountsAtMostOne(s, r[p]);
      }
    }
  }

  /** A record of StableSort(s) is a record of s. */
  lemma StableSortElement(s: seq<Pair>, i: int)
    requires 0 <= i < |StableSort(s)|
    ensures exists j :: 0 <= j < |s| && s[j] == StableSort(s)[i]
  {
    StableSortSortsAndPermutes(s);
    assert StableSort(s)[i] in multiset(s);
  }

  /** The benchmark's inputs have their key ties in index order. Position j is filled with
      index j; then SORT mode stable-sorts the whole vector, QUARTERSORT its first quarter
      and RANDOM nothing, which is a stable sort of the first m records for m = n, n / 4
      or 0. */
  lemma BenchmarkInputKeyTiesInOrder(s: seq<Pair>, m: int)
    requires forall i :: 0 <= i < |s| ==> s[i].second as int == i
    requires 0 <= m <= |s|
    ensures KeyTiesInOrder(StableSort(s[..m]) + s[m..])
  {
    var pre := StableSort(s[..m]);
    assert Distinct(s[..m]) by {
      forall i, j | 0 <= i < j < m ensures s[..m][i] != s[..m][j] {
        assert s[..m][i] == s[i] && s[..m][j] == s[j];
      }
    }
    StableSortOrdersKeyTies(s[..m]);
    StableSortSortsAndPermutes(s[..m]);
    assert |pre| == |multiset(pre)| == |multiset(s[..m])| == m;
    var t := pre + s[m..];
    forall p, q | 0 <= p < q < |t| && t[p].first == t[q].first
      ensures t[p].second < t[q].second
    {
      if q < m {
        assert t[p] == pre[p] && t[q] == pre[q];
      } else if p >= m {
        assert t[p] == s[p] && t[q] == s[q];
      } else {
        StableSortElement(s[..m], p);
        var j :| 0 <= j < m && s[..m][j] == pre[p];
        assert s[..m][j] == s[j];
        assert t[p] == pre[p] && t[q] == s[q];
      }
    }
  }

  /** Splitting an input whose key ties are in index order gives halves in which the left
      half wins every key tie. */
  lemma SplitLeftWinsKeyTies(s: seq<Pair>, m: int)
    requires KeyTiesInOrder(s) && 0 <= m <= |s|
    ensures LeftWinsKeyTies(s[..m], s[m..])
  {
    forall i, j | 0 <= i < m && 0 <= j < |s| - m && s[..m][i].first == s[m..][j].first
      ensures Less(s[..m][i], s[m..][j])
    {
      assert s[..m][i] == s[i] && s[m..][j] == s[m + j];
    }
  }

  /** Sorting both halves keeps the left half winning every key tie, which is what the
      merge needs to keep equal keys in input order. */
  lemma LeftWinsOnSortedHalves(l: seq<Pair>, r: seq<Pair>)
    requires LeftWinsKeyTies(l, r)
    ensures LeftWinsKeyTies(StableSort(l), StableSort(r))
  {
    var sl, sr := StableSort(l), StableSort(r);
    forall i, j | 0 <= i < |sl| && 0 <= j < |sr| && sl[i].first == sr[j].first
      ensures Less(sl[i], sr[j])
    {
      StableSortElement(l, i);
      StableSortElement(r, j);
      var i' :| 0 <= i' < |l| && l[i'] == sl[i];
      var j' :| 0 <= j' < |r| && r[j'] == sr[j];
    }
  }

  /** Key stability of one merge of the sort: when the left half wins every key tie, the
      records with key k leave the merge of the sorted halves as the left half's, then the
      right half's, each in sorted order. */
  lemma HalvesMergeIsKeyStable(l: seq<Pair>, r: seq<Pair>, k: int32)
    requires LeftWinsKeyTies(l, r)
    ensures WithKey(Merge(StableSort(l), StableSort(r)), k)
              == WithKey(StableSort(l), k) + WithKey(StableSort(r), k)
  {
    StableSortSortsAndPermutes(l);
    StableSortSortsAndPermutes(r);
    LeftWinsOnSortedHalves(l, r);
    MergeStable(StableSort(l), StableSort(r), k);
  }

  /** WithKey keeps exactly the records with key k, each as often as s holds it. */
  lemma {:induction false} WithKeyCount(s: seq<Pair>, k: int32, x: Pair)
    ensures multiset(WithKey(s, k))[x] == if x.first == k then multiset(s)[x] else 0
  {
    if s != [] {
      WithKeyCount(s[1..], k, x);
      MultisetOfCons(s);
    }
  }

  /** A record of WithKey(s, k) has key k and is a record of s. */
  lemma WithKeyElement(s: seq<Pair>, k: int32, i: int)
    requires 0 <= i < |WithKey(s, k)|
    ensures WithKey(s, k)[i].first == k && WithKey(s, k)[i] in s
  {
    var x := WithKey(s, k)[i];
    assert x in multiset(WithKey(s, k));
    WithKeyCount(s, k, x);
  }

  /** Permuting a sequence permutes the records of each key. */
  lemma WithKeyPermutes(s: seq<Pair>, t: seq<Pair>, k: int32)
    requires multiset(s) == multiset(t)
    ensures multiset(WithKey(s, k)) == multiset(WithKey(t, k))
  {
    forall x ensures multiset(WithKey(s, k))[x] == multiset(WithKey(t, k))[x] {
      WithKeyCount(s, k, x);
      WithKeyCount(t, k, x);
    }
  }

  /** The records of one key of an ascending sequence are ascending. */
  lemma {:induction false} WithKeyOfSorted(s: seq<Pair>, k: int32)
    requires Sorted(s)
    ensures Sorted(WithKey(s, k))
  {
    if s != [] {
      SortedTail(s);
      WithKeyOfSorted(s[1..], k);
      var w := WithKey(s[1..], k);
      if s[0].first == k {
        forall i | 0 <= i < |w| ensures LessEq(s[0], w[i]) {
          WithKeyElement(s[1..], k, i);
        }
        ConsSorted(s[0], w);
      }
    }
  }

  /** The records of one key of a sequence whose key ties are in index order are
      ascending. */
  lemma {:induction false} WithKeyOfKeyTiesInOrder(s: seq<Pair>, k: int32)
    requires KeyTiesInOrder(s)
    ensures Sorted(WithKey(s, k))
  {
    if s != [] {
      var tail := s[1..];
      assert KeyTiesInOrder(tail) by {
        forall p, q | 0 <= p < q < |tail| && tail[p].first == tail[q].first
          ensures tail[p].second < tail[q].second
        {
          assert tail[p] == s[p + 1] && tail[q] == s[q + 1];
        }
      }
      WithKeyOfKeyTiesInOrder(tail, k);
      var w := WithKey(tail, k);
      if s[0].first == k {
        forall i | 0 <= i < |w| ensures LessEq(s[0], w[i]) {
          WithKeyElement(tail, k, i);
          var j :| 0 <= j < |tail| && tail[j] == w[i];
          assert tail[j] == s[j + 1];
        }
        ConsSorted(s[0], w);
      }
    }
  }

  /** Stability of the sort: when the input's key ties are in index order, as in all
      three of the benchmark's input modes, the records of every key leave the sort in
      exactly their input order. */
  lemma StableSortKeepsKeyOrder(s: seq<Pair>, k: int32)
    requires KeyTiesInOrder(s)
    ensures WithKey(StableSort(s), k) == WithKey(s, k)
  {
    StableSortSortsAndPermutes(s);
    WithKeyPermutes(StableSort(s), s, k);
    WithKeyOfSorted(StableSort(s), k);
    WithKeyOfKeyTiesInOrder(s, k);
    SortedPermutationUnique(WithKey(StableSort(s), k), WithKey(s, k));
  }

  /** StableSortKeepsKeyOrder for every key at once. */
  lemma StableSortKeepsEveryKeyOrder(s: seq<Pair>)
    requires KeyTiesInOrder(s)
    ensures forall k :: WithKey(StableSort(s), k) == WithKey(s, k)
  {
    forall k: int32 ensures WithKey(StableSort(s), k) == WithKey(s, k) {
      StableSortKeepsKeyOrder(s, k);
    }
  }

  /** A tagged input with two records of key 5: they leave the sort in index order. */
  lemma TaggedExampleSorts()
    ensures StableSort([Pair(5, 0), Pair(3, 1), Pair(5, 2), Pair(1, 3)])
              == [Pair(1, 3), Pair(3, 1), Pair(5, 0), Pair(5, 2)]
  {
    var s := [Pair(5, 0), Pair(3, 1), Pair(5, 2), Pair(1, 3)];
    assert s[..1] == [Pair(5, 0)] && s[..1][..0] == [];
    assert StableSort(s[..1]) == [Pair(5, 0)];
    assert s[..2][..1] == s[..1];
    assert StableSort(s[..2]) == [Pair(3, 1), Pair(5, 0)];
    assert s[..3][..2] == s[..2];
    assert Insert(Pair(5, 2), [Pair(5, 0)]) == [Pair(5, 0), Pair(5, 2)];
    assert StableSort(s[..3]) == [Pair(3, 1), Pair(5, 0), Pair(5, 2)];
    assert s[..3] == s[..|s| - 1];
  }
}
