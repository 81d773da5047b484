/** Closed integer ranges kept in an ordered set whose comparator calls two
    ranges "less" only when the first ends before the second starts
    (range_map.hh). Overlapping ranges are therefore equivalent, and looking up
    the single-point range `[c, c]` finds the stored range that contains `c`.

    The ordered set is modelled as the sequence of its elements in comparator
    order; lookup follows the ordered-set algorithm: find the first element
    that is not less than the key (a binary search, the tree descent), then
    accept it when the key is not less than it either. */
module RangeMap {
  import opened Wrappers

  /** A pair `(first, second)`; a range made by `MakeRange` has `first <= second`. */
  datatype Range = Range(first: int, second: int)

  predicate Normal(r: Range) {
    r.first <= r.second
  }

  /** `c` lies inside the closed range `r`. */
  predicate Covers(r: Range, c: int) {
    r.first <= c <= r.second
  }

  /** The range between two bounds given in either order. */
  function MakeRange(lower: int, upper: int): (r: Range)
    ensures Normal(r)
    ensures multiset{r.first, r.second} == multiset{lower, upper}
  {
    if upper < lower then Range(upper, lower) else Range(lower, upper)
  }

  /** The range holding exactly one number. */
  function MakeSingleRange(n: int): (r: Range)
    ensures r == Range(n, n)
    ensures forall c :: Covers(r, c) <==> c == n
  {
    MakeRange(n, n)
  }

  /** The set's ordering: `a` comes before `b` when it ends before `b` starts. */
  predicate RangeCmp(a: Range, b: Range) {
    a.second < b.first
  }

  /** Neither range orders before the other: the set treats them as the same key. */
  predicate Equivalent(a: Range, b: Range) {
    !RangeCmp(a, b) && !RangeCmp(b, a)
  }

  /** Some number lies in both ranges. */
  ghost predicate Overlap(a: Range, b: Range) {
    exists c :: Covers(a, c) && Covers(b, c)
  }

  lemma MakeRangeSymmetric(a: int, b: int)
    ensures MakeRange(a, b) == MakeRange(b, a)
  {
  }

  /** A range that is already ordered comes back unchanged, so normalising twice
      is the same as normalising once. */
  lemma MakeRangeIdempotent(a: int, b: int)
    ensures MakeRange(a, b) == MakeRange(MakeRange(a, b).first, MakeRange(a, b).second)
    ensures a <= b ==> MakeRange(a, b) == Range(a, b)
  {
  }

  lemma RangeCmpIrreflexive(a: Range)
    requires Normal(a)
    ensures !RangeCmp(a, a)
  {
  }

  lemma RangeCmpAsymmetric(a: Range, b: Range)
    requires Normal(a) && Normal(b)
    ensures RangeCmp(a, b) ==> !RangeCmp(b, a)
  {
  }

  lemma RangeCmpTransitive(a: Range, b: Range, c: Range)
    requires Normal(b)
    ensures RangeCmp(a, b) && RangeCmp(b, c) ==> RangeCmp(a, c)
  {
  }

  /** For ordered ranges, being equivalent under the set's ordering is exactly
      having a number in common. */
  lemma EquivalentIffOverlap(a: Range, b: Range)
    requires Normal(a) && Normal(b)
    ensures Equivalent(a, b) <==> Overlap(a, b)
  {
    if Equivalent(a, b) {
      var c := if a.first < b.first then b.first else a.first;
      assert Covers(a, c) && Covers(b, c);
    }
  }

  /** Looking up the key `[c, c]` matches a stored range exactly when that
      range contains `c`. */
  lemma PointKeyMatch(r: Range, c: int)
    requires Normal(r)
    ensures Equivalent(r, MakeSingleRange(c)) <==> Covers(r, c)
  {
  }

  predicate AllNormal(s: seq<Range>) {
    forall i :: 0 <= i < |s| ==> Normal(s[i])
  }

  /** No two stored ranges share a number. */
  ghost predicate PairwiseDisjoint(s: seq<Range>) {
    forall i, j :: 0 <= i < |s| && 0 <= j < |s| && i != j ==> !Overlap(s[i], s[j])
  }

  /** The elements of the set in its iteration order: each orders before every later one. */
  predicate Sorted(s: seq<Range>) {
    AllNormal(s) && forall i, j :: 0 <= i < j < |s| ==> RangeCmp(s[i], s[j])
  }

  /** On a collection of ordered, pairwise non-overlapping ranges the
      comparator is a strict total order: irreflexive, transitive, and any two
      distinct elements are ordered one way or the other. This is what the
      ordered set needs of its comparator. */
  lemma {:induction false} StrictTotalOrderOnDisjoint(s: seq<Range>)
    requires AllNormal(s) && PairwiseDisjoint(s)
    ensures forall i :: 0 <= i < |s| ==> !RangeCmp(s[i], s[i])
    ensures forall i, j, k :: 0 <= i < |s| && 0 <= j < |s| && 0 <= k < |s| ==>
              (RangeCmp(s[i], s[j]) && RangeCmp(s[j], s[k]) ==> RangeCmp(s[i], s[k]))
    ensures forall i, j :: 0 <= i < |s| && 0 <= j < |s| && i != j ==>
              RangeCmp(s[i], s[j]) || RangeCmp(s[j], s[i])
  {
    forall i, j | 0 <= i < |s| && 0 <= j < |s| && i != j
      ensures RangeCmp(s[i], s[j]) || RangeCmp(s[j], s[i])
    {
      EquivalentIffOverlap(s[i], s[j]);
    }
  }

  /** A sorted sequence holds pairwise non-overlapping ranges. */
  lemma {:induction false} SortedIsDisjoint(s: seq<Range>)
    requires Sorted(s)
    ensures PairwiseDisjoint(s)
  {
    forall i, j | 0 <= i < |s| && 0 <= j < |s| && i != j
      ensures !Overlap(s[i], s[j])
    {
      EquivalentIffOverlap(s[i], s[j]);
    }
  }

  /** The first position in `s[lo..hi]` whose range is not ordered before
      `key`; everything before `lo` is ordered before it and nothing from `hi`
      on is. */
  function LowerBound(s: seq<Range>, key: Range, lo: nat, hi: nat): (k: nat)
    requires Sorted(s) && lo <= hi <= |s|
    requires forall i :: 0 <= i < lo ==> RangeCmp(s[i], key)
    requires forall i :: hi <= i < |s| ==> !RangeCmp(s[i], key)
    ensures lo <= k <= hi
    ensures forall i :: 0 <= i < k ==> RangeCmp(s[i], key)
    ensures forall i :: k <= i < |s| ==> !RangeCmp(s[i], key)
    decreases hi - lo
  {
    if lo == hi then lo
    else
      var mid := (lo + hi) / 2;
      if RangeCmp(s[mid], key) then
        assert forall i :: 0 <= i < mid ==> RangeCmp(s[i], s[mid]);
        LowerBound(s, key, mid + 1, hi)
      else
        assert forall i :: mid < i < |s| ==> RangeCmp(s[mid], s[i]);
        LowerBound(s, key, lo, mid)
  }

  /** The set's `find`: the position of a stored range equivalent to `key`,
      or `None` when there is none. */
  function Find(s: seq<Range>, key: Range): (r: Option<nat>)
    requires Sorted(s)
    ensures r.Some? ==> r.value < |s| && Equivalent(s[r.value], key)
    ensures r.None? ==> forall i :: 0 <= i < |s| ==> !Equivalent(s[i], key)
  {
    var k := LowerBound(s, key, 0, |s|);
    if k < |s| && !RangeCmp(key, s[k]) then Some(k)
    else
      assert forall i :: k < i < |s| ==> RangeCmp(s[k], s[i]);
      None
  }

  /** Membership of `c` in the set: the lookup of `[c, c]` succeeds exactly
      when some stored range contains `c`. */
  function Contains(s: seq<Range>, c: int): (b: bool)
    requires Sorted(s)
    ensures b <==> exists i :: 0 <= i < |s| && Covers(s[i], c)
  {
    var r := Find(s, MakeSingleRange(c));
    if r.Some? then
      assert Covers(s[r.value], c);
      true
    else
      false
  }
}
