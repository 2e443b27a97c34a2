/** The records the benchmark sorts: std::pair<std::int32_t, std::int32_t>
    ordered by std::pair's operator<. */
module Records {

  /** A 32-bit signed integer, the type of both components of a record. */
  newtype int32 = x: int | -0x8000_0000 <= x < 0x8000_0000

  /** A record: its key and, as the benchmark fills it, its original index. */
  datatype Pair = Pair(first: int32, second: int32)

  /** std::pair's operator<: compare the first components, and on a tie the second. */
  predicate Less(a: Pair, b: Pair) {
    a.first < b.first || (a.first == b.first && a.second < b.second)
  }

  /** "b is not less than a": the relation a sorted range keeps between any two positions. */
  predicate LessEq(a: Pair, b: Pair) {
    !Less(b, a)
  }

  /** s is in ascending std::pair order. */
  predicate Sorted(s: seq<Pair>) {
    forall i, j :: 0 <= i < j < |s| ==> LessEq(s[i], s[j])
  }

  /** Every record of s is at least b. */
  predicate AllAtLeast(b: Pair, s: seq<Pair>) {
    forall i :: 0 <= i < |s| ==> LessEq(b, s[i])
  }

  /** operator< is a strict total order on records: exactly one of a < b, a == b, b < a
      holds, and it is transitive; so LessEq is a total order whose ties are equal records. */
  lemma LessIsStrictTotalOrder(a: Pair, b: Pair, c: Pair)
    ensures !Less(a, a)
    ensures Less(a, b) || a == b || Less(b, a)
    ensures Less(a, b) ==> !Less(b, a)
    ensures Less(a, b) && Less(b, c) ==> Less(a, c)
    ensures LessEq(a, b) && LessEq(b, a) ==> a == b
  {
  }
}
