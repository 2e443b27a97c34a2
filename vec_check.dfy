/** The DEBUG build's check of a sort's output: vec_check and the comparison at the end
    of elapsed_time. */
module DebugCheck {
  import opened Records
  import opened SortSpec
  import opened ParallelSort

  /** vec_check: compares two vectors of the same size position by position and stops at
      the first position where they differ; at is the position it reports. */
  method VecCheck(v1: seq<Pair>, v2: seq<Pair>) returns (ok: bool, at: nat)
    requires |v1| == |v2|
    ensures ok <==> v1 == v2
    ensures ok ==> at == |v1|
    ensures !ok ==> at < |v1| && v1[at] != v2[at] && v1[..at] == v2[..at]
  {
    var i := 0;
    while i < |v1|
      invariant 0 <= i <= |v1|
      invariant forall k :: 0 <= k < i ==> v1[k] == v2[k]
    {
      if v1[i] != v2[i] {
        assert v1[..i] == v2[..i];
        return false, i;
      }
      i := i + 1;
    }
    assert v1 == v2;
    return true, i;
  }

  /** std::stable_sort on a copy of s (vecback in elapsed_time). */
  method SortedCopy(s: seq<Pair>) returns (r: seq<Pair>)
    ensures r == StableSort(s) && |r| == |s|
  {
    var back := ArrayOf(s);
    LeafSort(back, 0, back.Length);
    assert back[..] == back[0..back.Length];
    assert s == s[0..|s|];
    r := back[..];
  }

  /** The check as written: vecback is copied from the vector after the sort ran, sorted
      again and compared with it, so the check passes exactly when the output is
      ascending. */
  method DebugCheckAsWritten(vec: seq<Pair>) returns (ok: bool)
    ensures ok <==> Sorted(vec)
  {
    var back := SortedCopy(vec);
    var at;
    ok, at := VecCheck(vec, back);
    StableSortIdempotent(vec);
  }

  /** An ascending output that has lost a record of its input and repeated another: the
      check as written accepts it, since it never looks at the input. */
  lemma AsWrittenAcceptsLostRecord()
    ensures Sorted([Pair(0, 1), Pair(0, 1)])
    ensures [Pair(0, 1), Pair(0, 1)] != StableSort([Pair(1, 0), Pair(0, 1)])
  {
    var input := [Pair(1, 0), Pair(0, 1)];
    assert input[..1] == [Pair(1, 0)];
    assert StableSort(input[..1]) == [Pair(1, 0)];
    assert StableSort(input) == Insert(Pair(0, 1), [Pair(1, 0)]) == [Pair(0, 1), Pair(1, 0)];
  }

  /** The check as intended: vecback is a copy of the input taken before the sort runs,
      sorted with the plain stable sort and compared with the output, so the check passes
      exactly when the output is the stable sort of the input. */
  method DebugCheckAgainstInput(input: seq<Pair>, output: seq<Pair>) returns (ok: bool)
    ensures ok <==> output == StableSort(input)
  {
    var back := SortedCopy(input);
    if |output| != |back| {
      return false;
    }
    var at;
    ok, at := VecCheck(output, back);
  }

  /** The last timed round of elapsed_time in a DEBUG build: the sort runs on the
      vector, then the output is checked. Neither check reports an error. */
  method BenchmarkRound(vec: array<Pair>, backend: Backend)
      returns (okAsWritten: bool, okAgainstInput: bool)
    modifies vec
    ensures vec[..] == StableSort(old(vec[..]))
    ensures okAsWritten && okAgainstInput
  {
    var input := vec[..];
    ghost var leaves := ParallelStableSort(vec, backend);
    StableSortSortsAndPermutes(input);
    okAsWritten := DebugCheckAsWritten(vec[..]);
    okAgainstInput := DebugCheckAgainstInput(input, vec[..]);
  }
}
