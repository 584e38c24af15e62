/** What decides whether pdqsort_try_sort goes on with a range: the pivot and the elements below it. */
module PdqAnswer {
  import opened PdqOrder
  import opened PdqInsertion
  import opened PdqPartition

  // ---------------------------------------------------------------- the pivot

  ghost predicate Between<T>(comp: (T, T) -> bool, x: T, m: T, y: T) {
    (Leq(comp, x, m) && Leq(comp, m, y)) || (Leq(comp, y, m) && Leq(comp, m, x))
  }

  /** m is one of the three and between the other two. */
  ghost predicate IsMedian<T>(comp: (T, T) -> bool, m: T, x: T, y: T, z: T) {
    (m == x && Between(comp, y, m, z)) || (m == y && Between(comp, x, m, z)) || (m == z && Between(comp, x, m, y))
  }

  /** The compare-and-swap rounds put the median in the middle and leave all other places alone. */
  lemma MedianOf3<T(!new)>(s: seq<T>, i: int, j: int, k: int, comp: (T, T) -> bool)
    requires StrictWeakOrder(comp) && 0 <= i < |s| && 0 <= j < |s| && 0 <= k < |s| && i != j && j != k && i != k
    ensures var t := Ordered3(s, i, j, k, comp);
            && IsMedian(comp, t[j], s[i], s[j], s[k])
            && forall x :: 0 <= x < |s| && x != i && x != j && x != k ==> t[x] == s[x]
  {
    RoundsOf3(s, i, j, k, comp);
    LessLeq(comp, s[i], s[j], s[k]);
    LessLeq(comp, s[j], s[i], s[k]);
    LessLeq(comp, s[k], s[j], s[i]);
    LessLeq(comp, s[k], s[i], s[j]);
    LessLeq(comp, s[i], s[k], s[j]);
    LessLeq(comp, s[j], s[k], s[i]);
  }

  /** The pivot of a range of 24 to 128 elements is the median of its first, middle and last one; */
  lemma PivotIsMedian<T(!new)>(s: seq<T>, begin: int, end: int, comp: (T, T) -> bool)
    requires StrictWeakOrder(comp) && 0 <= begin && begin + 24 <= end <= |s| && end - begin <= 128
    ensures IsMedian(comp, Pivoted(s, begin, end, comp)[begin], s[begin], s[begin + (end - begin) / 2], s[end - 1])
  {
    MedianOf3(s, begin + (end - begin) / 2, begin, end - 1, comp);
  }

  ghost predicate IsNinther<T(!new)>(comp: (T, T) -> bool, m: T, s: seq<T>, begin: int, mid: int, end: int)
    requires 0 <= begin && begin + 3 <= mid - 1 && mid + 1 <= end - 4 && end <= |s|
  {
    exists x, y, z ::
      && IsMedian(comp, x, s[begin], s[mid], s[end - 1])
      && IsMedian(comp, y, s[begin + 1], s[mid - 1], s[end - 2])
      && IsMedian(comp, z, s[begin + 2], s[mid + 1], s[end - 3])
      && IsMedian(comp, m, x, y, z)
  }

  lemma MediansAreMedians<T(!new)>(s: seq<T>, begin: int, mid: int, end: int, comp: (T, T) -> bool)
    requires StrictWeakOrder(comp) && 0 <= begin && begin + 3 <= mid - 1 && mid + 1 <= end - 4 && end <= |s|
    ensures var t := Medians(s, begin, mid, end, comp);
            && IsMedian(comp, t[mid], s[begin], s[mid], s[end - 1])
            && IsMedian(comp, t[mid - 1], s[begin + 1], s[mid - 1], s[end - 2])
            && IsMedian(comp, t[mid + 1], s[begin + 2], s[mid + 1], s[end - 3])
  {
    var t := Ordered3(s, begin, mid, end - 1, comp);
    MedianOf3(s, begin, mid, end - 1, comp);
    var u := Ordered3(t, begin + 1, mid - 1, end - 2, comp);
    MedianOf3(t, begin + 1, mid - 1, end - 2, comp);
    MedianOf3(u, begin + 2, mid + 1, end - 3, comp);
  }

  lemma MedianSymmetric<T>(comp: (T, T) -> bool, m: T, x: T, y: T, z: T)
    requires IsMedian(comp, m, y, x, z)
    ensures IsMedian(comp, m, x, y, z)
  {
  }

  /** that of a larger one is the median of three such medians. */
  lemma PivotIsNinther<T(!new)>(s: seq<T>, begin: int, end: int, comp: (T, T) -> bool)
    requires StrictWeakOrder(comp) && 0 <= begin && end <= |s| && end - begin > 128
    ensures IsNinther(comp, Pivoted(s, begin, end, comp)[begin], s, begin, begin + (end - begin) / 2, end)
  {
    var mid := begin + (end - begin) / 2;
    var t := Medians(s, begin, mid, end, comp);
    MediansAreMedians(s, begin, mid, end, comp);
    MedianOf3(t, mid - 1, mid, mid + 1, comp);
    MedianSymmetric(comp, Pivoted(s, begin, end, comp)[begin], t[mid], t[mid - 1], t[mid + 1]);
  }

  // ---------------------------------------------------------------- where it splits the range

  /** How many elements of [lo, hi) are below x. */
  ghost function CountBelow<T>(s: seq<T>, lo: int, hi: int, x: T, comp: (T, T) -> bool): nat
    requires 0 <= lo <= hi <= |s|
  {
    |set i | lo <= i < hi && comp(s[i], x)|
  }

  function Flipped<T>(comp: (T, T) -> bool): (T, T) -> bool {
    (x, y) => comp(y, x)
  }

  lemma {:induction false} CountBelowIsCount<T>(s: seq<T>, lo: int, hi: int, x: T, comp: (T, T) -> bool)
    requires 0 <= lo <= hi <= |s|
    ensures CountBelow(s, lo, hi, x, comp) == CountAbove(s, lo, hi, x, Flipped(comp))
    decreases hi
  {
    var all := set i | lo <= i < hi && comp(s[i], x);
    if lo < hi {
      CountBelowIsCount(s, lo, hi - 1, x, comp);
      var before := set i | lo <= i < hi - 1 && comp(s[i], x);
      assert all == before + if comp(s[hi - 1], x) then {hi - 1} else {};
    } else {
      assert all == {};
    }
  }

  lemma CountBelowPermuted<T>(s: seq<T>, t: seq<T>, lo: int, hi: int, x: T, comp: (T, T) -> bool)
    requires 0 <= lo <= hi <= |s| && Permuted(s, t, lo, hi)
    ensures CountBelow(s, lo, hi, x, comp) == CountBelow(t, lo, hi, x, comp)
  {
    CountBelowIsCount(s, lo, hi, x, comp);
    CountBelowIsCount(t, lo, hi, x, comp);
    CountAbovePermuted(s, t, lo, hi, x, Flipped(comp));
  }

  lemma {:induction false} CountCut<T>(s: seq<T>, lo: int, m: int, hi: int, x: T, comp: (T, T) -> bool)
    requires 0 <= lo <= m <= hi <= |s| && CutAt(s, lo, m, hi, x, comp)
    ensures CountAbove(s, lo, hi, x, Flipped(comp)) == m - lo
    decreases hi
  {
    if m < hi {
      CountCut(s, lo, m, hi - 1, x, comp);
    } else if lo < hi {
      CountCut(s, lo, m - 1, hi - 1, x, comp);
    }
  }

  lemma CountBelowCut<T>(s: seq<T>, lo: int, m: int, hi: int, x: T, comp: (T, T) -> bool)
    requires 0 <= lo <= m <= hi <= |s| && CutAt(s, lo, m, hi, x, comp)
    ensures CountBelow(s, lo, hi, x, comp) == m - lo
  {
    CountBelowIsCount(s, lo, hi, x, comp);
    CountCut(s, lo, m, hi, x, comp);
  }

  /** The pivot goes behind the elements below it. */
  ghost function SplitAt<T>(s: seq<T>, begin: int, end: int, comp: (T, T) -> bool): int
    requires 0 <= begin && begin + INSERTION_SORT_THRESHOLD <= end <= |s|
  {
    begin + CountBelow(s, begin, end, Pivoted(s, begin, end, comp)[begin], comp)
  }

  lemma SplitIsCounted<T(!new)>(s: seq<T>, t: seq<T>, u: seq<T>, begin: int, end: int, comp: (T, T) -> bool,
                                pos: int, already: bool)
    requires StrictWeakOrder(comp) && 0 <= begin && begin + INSERTION_SORT_THRESHOLD <= end <= |s|
    requires t == Pivoted(s, begin, end, comp) && Permuted(s, t, begin, end)
    requires PartitionedRight(t, u, begin, end, comp, pos, already)
    ensures pos == SplitAt(s, begin, end, comp)
  {
    var p := t[begin];
    CountBelowPermuted(s, t, begin, end, p, comp);
    CountBelowPermuted(t, u, begin, end, p, comp);
    assert !comp(u[pos], p);
    CountBelowCut(u, begin, pos, end, p, comp);
  }

  // ---------------------------------------------------------------- what happens then

  /** Less than an eighth of the range is on one side. */
  predicate Unbalanced(begin: int, pos: int, end: int) {
    pos - begin < (end - begin) / 8 || end - (pos + 1) < (end - begin) / 8
  }

  /** Both sides of pos have at most eight inversions. */
  ghost predicate FewInversions<T>(s: seq<T>, begin: int, pos: int, end: int, comp: (T, T) -> bool)
    requires 0 <= begin <= pos < end <= |s|
  {
    Inversions(s, begin, pos, comp) <= 8 && Inversions(s, pos + 1, end, comp) <= 8
  }

  /** The range is partitioned as it stands, but for the exchange of the pivot, and nearly sorted. */
  ghost predicate Quiet<T>(s: seq<T>, begin: int, pos: int, end: int, comp: (T, T) -> bool)
    requires 0 <= begin <= pos < end <= |s| && begin + INSERTION_SORT_THRESHOLD <= end
  {
    var t := Pivoted(s, begin, end, comp);
    Partitioned(t, begin + 1, end, t[begin], comp) && FewInversions(Swapped(t, begin, pos), begin, pos, end, comp)
  }

  /** Inversions depend on the elements of the range only. */
  lemma {:induction false} InversionsAgree<T>(s: seq<T>, t: seq<T>, lo: int, hi: int, comp: (T, T) -> bool)
    requires 0 <= lo <= |s| == |t| && hi <= |s| && forall i :: lo <= i < hi ==> s[i] == t[i]
    ensures Inversions(s, lo, hi, comp) == Inversions(t, lo, hi, comp)
    decreases hi
  {
    if lo < hi {
      InversionsAgree(s, t, lo, hi - 1, comp);
      assert s[lo..lo + (hi - 1 - lo)] == t[lo..lo + (hi - 1 - lo)];
      CountAboveAgree(s, lo, t, lo, hi - 1 - lo, s[hi - 1], comp);
    }
  }

  /** One unforced turn on the array s: the split position, and whether the sort gives up or is done there. As with SameBag,
      proofs that need the body assert `Seen(0)`. */
  ghost predicate Decided<T>(s: seq<T>, begin: int, end: int, comp: (T, T) -> bool, pos: int, gaveUp: bool, done: bool)
    requires 0 <= begin && begin + INSERTION_SORT_THRESHOLD <= end <= |s|
  {
    forall m: nat {:trigger Seen(m)} :: Seen(m) ==>
      && begin <= pos < end && pos == SplitAt(s, begin, end, comp)
      && (gaveUp <==> Unbalanced(begin, pos, end))
      && (done <==> !Unbalanced(begin, pos, end) && Quiet(s, begin, pos, end, comp))
  }

  lemma LevelDecides<T(!new)>(s: seq<T>, t: seq<T>, u: seq<T>, begin: int, end: int, comp: (T, T) -> bool, pos: int,
                              already: bool,
                              gaveUp: bool, done: bool)
    requires StrictWeakOrder(comp) && 0 <= begin && begin + INSERTION_SORT_THRESHOLD <= end <= |s|
    requires Chosen(s, t, begin, end, comp) && Permuted(s, t, begin, end)
    requires PartitionedRight(t, u, begin, end, comp, pos, already)
    requires gaveUp <==> Unbalanced(begin, pos, end)
    requires done <==> !Unbalanced(begin, pos, end) && already && FewInversions(u, begin, pos, end, comp)
    ensures Decided(s, begin, end, comp, pos, gaveUp, done)
  {
    assert Seen(0);
    SplitIsCounted(s, t, u, begin, end, comp, pos, already);
  }

  /** The array after a split of s that was not partitioned before: its first misplaced elements have changed places, and
      those in front of them stand where they stood. */
  ghost predicate Moved<T>(s: seq<T>, u: seq<T>, begin: int, pos: int, end: int, comp: (T, T) -> bool)
    requires 0 <= begin <= pos < end <= |s| == |u| && begin + INSERTION_SORT_THRESHOLD <= end
  {
    var t := Pivoted(s, begin, end, comp);
    Partitioned(t, begin + 1, end, t[begin], comp) || EdgesKept(t, u, begin, end, comp, pos)
  }

  /** The same behind `Seen(0)`. */
  ghost predicate SplitFrom<T>(s: seq<T>, u: seq<T>, begin: int, pos: int, end: int, comp: (T, T) -> bool)
    requires 0 <= begin <= pos < end <= |s| == |u| && begin + INSERTION_SORT_THRESHOLD <= end
  {
    forall m: nat {:trigger Seen(m)} :: Seen(m) ==> Moved(s, u, begin, pos, end, comp)
  }

  lemma LevelSplits<T>(s: seq<T>, t: seq<T>, u: seq<T>, v: seq<T>, begin: int, pos: int, end: int, comp: (T,
                       T) -> bool, already: bool)
    requires 0 <= begin && begin + INSERTION_SORT_THRESHOLD <= end <= |s| == |t| && Chosen(s, t, begin, end, comp)
    requires PartitionedRight(t, u, begin, end, comp, pos, already) && |v| == |s| && (already || v == u)
    ensures SplitFrom(s, v, begin, pos, end, comp)
  {
    assert Seen(0);
  }
}
