/** Pivot selection by medians and the two classic partition schemes, whose inner scans have no bound
    checks: sentinels keep them inside the range. */
module PdqPartition {
  import opened PdqOrder

  const INSERTION_SORT_THRESHOLD := 24
  const NINTHER_THRESHOLD := 128

  /** std::iter_swap */
  method IterSwap<T>(a: array<T>, i: int, j: int)
    requires 0 <= i < a.Length && 0 <= j < a.Length
    modifies a
    ensures a[..] == Swapped(old(a[..]), i, j)
  {
    a[i], a[j] := a[j], a[i];
  }

  /** A swap inside [lo, hi), as a permutation. */
  method SwapWithin<T>(a: array<T>, i: int, j: int, ghost lo: int, ghost hi: int, ghost s0: seq<T>)
    requires 0 <= lo <= i < hi <= a.Length && lo <= j < hi
    requires |s0| == a.Length && Permuted(s0, a[..], lo, hi)
    modifies a
    ensures a[..] == Swapped(old(a[..]), i, j) && Permuted(s0, a[..], lo, hi)
  {
    IterSwap(a, i, j);
    SwappedIsPermuted(old(a[..]), i, j, lo, hi);
    PermutedTransitive(s0, old(a[..]), a[..], lo, hi);
  }

  function Ordered2<T>(s: seq<T>, i: int, j: int, comp: (T, T) -> bool): (t: seq<T>)
    requires 0 <= i < |s| && 0 <= j < |s|
    ensures |t| == |s|
  {
    if comp(s[j], s[i]) then Swapped(s, i, j) else s
  }

  /** Compare and swap (i, j), then (j, k), and so on for the given number of rounds. */
  function OrderRounds<T>(s: seq<T>, i: int, j: int, k: int, rounds: nat, comp: (T, T) -> bool): (t: seq<T>)
    requires 0 <= i < |s| && 0 <= j < |s| && 0 <= k < |s|
    ensures |t| == |s|
  {
    if rounds == 0 then s
    else
      var t := OrderRounds(s, i, j, k, rounds - 1, comp);
      if rounds % 2 == 1 then Ordered2(t, i, j, comp) else Ordered2(t, j, k, comp)
  }

  function Ordered3<T>(s: seq<T>, i: int, j: int, k: int, comp: (T, T) -> bool): (t: seq<T>)
    requires 0 <= i < |s| && 0 <= j < |s| && 0 <= k < |s|
    ensures |t| == |s|
  {
    OrderRounds(s, i, j, k, 3, comp)
  }

  lemma RoundsOf3<T>(s: seq<T>, i: int, j: int, k: int, comp: (T, T) -> bool)
    requires 0 <= i < |s| && 0 <= j < |s| && 0 <= k < |s|
    ensures Ordered3(s, i, j, k, comp) == Ordered2(Ordered2(Ordered2(s, i, j, comp), j, k, comp), i, j, comp)
  {
    assert OrderRounds(s, i, j, k, 0, comp) == s;
    var t := OrderRounds(s, i, j, k, 1, comp);
    assert t == Ordered2(s, i, j, comp);
    var u := OrderRounds(s, i, j, k, 2, comp);
    assert u == Ordered2(t, j, k, comp);
  }

  method Sort2<T(!new)>(a: array<T>, i: int, j: int, comp: (T, T) -> bool) returns (ghost used: nat)
    requires 0 <= i < a.Length && 0 <= j < a.Length && i != j
    modifies a
    ensures a[..] == Ordered2(old(a[..]), i, j, comp)
    ensures used == 1
  {
    used := 1;
    if comp(a[j], a[i]) { IterSwap(a, i, j); }
  }

  /** Orders the elements at three distinct positions. */
  method Sort3<T(!new)>(a: array<T>, i: int, j: int, k: int, comp: (T, T) -> bool, ghost lo: int, ghost hi: int,
                        ghost s0: seq<T>)
    returns (ghost used: nat)
    requires StrictWeakOrder(comp)
    requires 0 <= lo <= i < hi <= a.Length && lo <= j < hi && lo <= k < hi && i != j && j != k && i != k
    requires |s0| == a.Length && Permuted(s0, a[..], lo, hi)
    modifies a
    ensures Leq(comp, a[i], a[j]) && Leq(comp, a[j], a[k])
    ensures forall x :: 0 <= x < a.Length && x != i && x != j && x != k ==> a[x] == old(a[x])
    ensures Permuted(s0, a[..], lo, hi) && a[..] == Ordered3(old(a[..]), i, j, k, comp)
    ensures used == 3
  {
    ghost var s := a[..];
    ghost var first := Sort2(a, i, j, comp);
    SwapStep(s0, s, a[..], i, j, lo, hi);
    ghost var t := a[..];
    ghost var second := Sort2(a, j, k, comp);
    SwapStep(s0, t, a[..], j, k, lo, hi);
    ghost var u := a[..];
    ghost var third := Sort2(a, i, j, comp);
    RoundsOf3(s, i, j, k, comp);
    used := first + second + third;
    SwapStep(s0, u, a[..], i, j, lo, hi);
    LessLeq(comp, s[i], s[j], s[k]);
    LessLeq(comp, s[j], s[i], s[k]);
    LessLeq(comp, s[k], s[j], s[i]);
    LessLeq(comp, s[k], s[i], s[j]);
    LessLeq(comp, s[i], s[k], s[j]);
    LessLeq(comp, s[j], s[k], s[i]);
  }

  lemma SwapStep<T>(s0: seq<T>, s: seq<T>, t: seq<T>, i: int, j: int, lo: int, hi: int)
    requires 0 <= lo <= i < hi <= |s0| && lo <= j < hi && Permuted(s0, s, lo, hi)
    requires t == s || t == Swapped(s, i, j)
    ensures Permuted(s0, t, lo, hi)
  {
    SwappedIsPermuted(s, i, j, lo, hi);
  }

  /** The pivot at `begin` has an element on either side of it in the order, elsewhere in the range. */
  ghost predicate HasSentinels<T>(s: seq<T>, begin: int, end: int, comp: (T, T) -> bool)
    requires 0 <= begin < end <= |s|
  {
    && (exists i :: begin < i < end && Leq(comp, s[i], s[begin]))
    && (exists i :: begin < i < end && Leq(comp, s[begin], s[i]))
  }

  function Medians<T>(s: seq<T>, begin: int, mid: int, end: int, comp: (T, T) -> bool): (t: seq<T>)
    requires 0 <= begin && begin + 3 <= mid - 1 && mid + 1 <= end - 4 && end <= |s|
    ensures |t| == |s|
  {
    var t := Ordered3(s, begin, mid, end - 1, comp);
    var t := Ordered3(t, begin + 1, mid - 1, end - 2, comp);
    Ordered3(t, begin + 2, mid + 1, end - 3, comp)
  }

  /** The array after the choice of a pivot: the median of first, middle and last element, or of the medians of three such
      triples in a large range, stands at the front. */
  function Pivoted<T>(s: seq<T>, begin: int, end: int, comp: (T, T) -> bool): (t: seq<T>)
    requires 0 <= begin && begin + INSERTION_SORT_THRESHOLD <= end <= |s|
    ensures |t| == |s|
  {
    var mid := begin + (end - begin) / 2;
    if end - begin > NINTHER_THRESHOLD then
      Swapped(Ordered3(Medians(s, begin, mid, end, comp), mid - 1, mid, mid + 1, comp), begin, mid)
    else Ordered3(s, mid, begin, end - 1, comp)
  }

  /** t is the array s after the choice of the pivot. As with SameBag, proofs that need the body assert `Seen(0)`. */
  ghost predicate Chosen<T>(s: seq<T>, t: seq<T>, begin: int, end: int, comp: (T, T) -> bool)
    requires 0 <= begin && begin + INSERTION_SORT_THRESHOLD <= end <= |s|
  {
    forall m: nat {:trigger Seen(m)} :: Seen(m) ==> t == Pivoted(s, begin, end, comp)
  }

  ghost predicate Seen(m: nat) { true }

  method SortMedians<T(!new)>(a: array<T>, begin: int, mid: int, end: int, comp: (T, T) -> bool) returns (ghost used: nat)
    requires StrictWeakOrder(comp) && 0 <= begin && begin + 3 <= mid - 1 && mid + 1 <= end - 4 && end <= a.Length
    modifies a
    ensures Permuted(old(a[..]), a[..], begin, end) && a[..] == Medians(old(a[..]), begin, mid, end, comp)
    ensures used == 9
  {
    ghost var s0 := a[..];
    ghost var low := Sort3(a, begin, mid, end - 1, comp, begin, end, s0);
    ghost var middle := Sort3(a, begin + 1, mid - 1, end - 2, comp, begin, end, s0);
    ghost var high := Sort3(a, begin + 2, mid + 1, end - 3, comp, begin, end, s0);
    used := low + middle + high;
  }

  method ChooseNinther<T(!new)>(a: array<T>, begin: int, mid: int, end: int, comp: (T, T) -> bool) returns (ghost used: nat)
    requires StrictWeakOrder(comp) && 0 <= begin && begin + 3 <= mid - 1 && mid + 1 <= end - 4 && end <= a.Length
    modifies a
    ensures Permuted(old(a[..]), a[..], begin, end) && HasSentinels(a[..], begin, end, comp)
    ensures a[..] == Swapped(Ordered3(Medians(old(a[..]), begin, mid, end, comp), mid - 1, mid, mid + 1, comp), begin, mid)
    ensures used == 12
  {
    ghost var s0 := a[..];
    used := SortMedians(a, begin, mid, end, comp);
    ghost var last := Sort3(a, mid - 1, mid, mid + 1, comp, begin, end, s0);
    used := used + last;
    SwapWithin(a, begin, mid, begin, end, s0);
    assert Leq(comp, a[..][mid - 1], a[..][begin]) && Leq(comp, a[..][begin], a[..][mid + 1]);
  }

  /** Median of 3, or Tukey's ninther for large ranges, moved to a[begin]. */
  method ChoosePivot<T(!new)>(a: array<T>, begin: int, end: int, comp: (T, T) -> bool) returns (ghost used: nat)
    requires StrictWeakOrder(comp)
    requires 0 <= begin && begin + INSERTION_SORT_THRESHOLD <= end <= a.Length
    modifies a
    ensures Permuted(old(a[..]), a[..], begin, end)
    ensures HasSentinels(a[..], begin, end, comp) && Chosen(old(a[..]), a[..], begin, end, comp)
    ensures used <= 12
  {
    ghost var s0 := a[..];
    var size := end - begin;
    var s2 := size / 2;
    if size > NINTHER_THRESHOLD {
      used := ChooseNinther(a, begin, begin + s2, end, comp);
    } else {
      used := Sort3(a, begin + s2, begin, end - 1, comp, begin, end, s0);
      assert Leq(comp, a[..][begin + s2], a[..][begin]) && Leq(comp, a[..][begin], a[..][end - 1]);
    }
  }

  /** [lo, k) is below the pivot and [k, hi) is not. */
  ghost predicate CutAt<T>(s: seq<T>, lo: int, k: int, hi: int, pivot: T, comp: (T, T) -> bool)
    requires 0 <= lo <= k <= hi <= |s|
  {
    && (forall i :: lo <= i < k ==> comp(s[i], pivot))
    && (forall i :: k <= i < hi ==> !comp(s[i], pivot))
  }

  ghost predicate Partitioned<T>(s: seq<T>, lo: int, hi: int, pivot: T, comp: (T, T) -> bool)
    requires 0 <= lo <= hi <= |s|
  {
    exists k :: lo <= k <= hi && CutAt(s, lo, k, hi, pivot, comp)
  }

  /** f is the first place behind the pivot whose element is not below it, g the last one whose element is. */
  ghost predicate Edges<T>(s: seq<T>, begin: int, f: int, g: int, end: int, comp: (T, T) -> bool)
    requires 0 <= begin < f < g < end <= |s|
  {
    && (forall i :: begin < i < f ==> comp(s[i], s[begin])) && !comp(s[f], s[begin])
    && comp(s[g], s[begin]) && (forall i :: g < i < end ==> !comp(s[i], s[begin]))
  }

  /** The elements in front of f stay, and f gets the element of g, which the pivot then changes places with if it goes to f. */
  ghost predicate EdgesKept<T>(s: seq<T>, t: seq<T>, begin: int, end: int, comp: (T, T) -> bool, pos: int)
    requires 0 <= begin < end <= |s| == |t|
  {
    forall f, g :: begin < f < g < end && Edges(s, begin, f, g, end, comp) ==>
                     (forall i :: begin < i < f ==> t[i] == s[i]) && (pos == f ==> t[begin] == s[g])
  }

  /** The same while the pivot still stands in front. */
  ghost predicate EdgesMoved<T>(s: seq<T>, t: seq<T>, begin: int, first: int, last: int)
    requires 0 <= begin < first < |s| == |t| && 0 <= last < |s|
  {
    (forall i :: begin < i < first ==> t[i] == s[i]) && (first < last ==> t[first] == s[last])
  }

  /** The outcome of partition_right, shared by its branchless form: the pivot sits at pos, everything
      before it is less, everything after it is not less, and the flag tells whether the range behind
      the pivot was partitioned beforehand, so that nothing but the pivot has moved. */
  ghost predicate PartitionedRight<T>(s: seq<T>, t: seq<T>, begin: int, end: int, comp: (T, T) -> bool, pos: int,
                                      already: bool)
    requires 0 <= begin < end <= |s|
  {
    && Permuted(s, t, begin, end)
    && begin <= pos < end
    && t[pos] == s[begin]
    && (forall i :: begin <= i < pos ==> comp(t[i], t[pos]))
    && (forall i :: pos < i < end ==> !comp(t[i], t[pos]))
    && (already <==> Partitioned(s, begin + 1, end, s[begin], comp))
    && (already ==> t == Swapped(s, begin, pos))
    && EdgesKept(s, t, begin, end, comp, pos)
  }

  /** Moving the pivot from the front to pos completes a partition of [begin + 1, end) cut at pos + 1. */
  lemma PlacePivot<T>(s: seq<T>, t: seq<T>, begin: int, end: int, comp: (T, T) -> bool, pos: int, already: bool,
                      first: int, last: int)
    requires 0 <= begin <= pos < end <= |s|
    requires Permuted(s, t, begin, end) && t[begin] == s[begin]
    requires CutAt(t, begin + 1, pos + 1, end, s[begin], comp)
    requires (already <==> Partitioned(s, begin + 1, end, s[begin], comp)) && (already ==> t == s)
    requires ScansEnd(s, begin, first, last, end, comp) && EdgesMoved(s, t, begin, first, last)
    requires already <==> first >= last
    ensures PartitionedRight(s, Swapped(t, begin, pos), begin, end, comp, pos, already)
  {
    SwapStep(s, t, Swapped(t, begin, pos), begin, pos, begin, end);
    PlaceEdges(s, t, begin, end, comp, pos, first, last);
  }

  /** Where the opening scans stop. */
  ghost predicate ScansEnd<T>(s: seq<T>, begin: int, first: int, last: int, end: int, comp: (T, T) -> bool)
    requires 0 <= begin < end <= |s|
  {
    && begin < first < end && first - 1 <= last < end
    && (forall i :: begin < i < first ==> comp(s[i], s[begin])) && !comp(s[first], s[begin])
    && (forall i :: last < i < end ==> !comp(s[i], s[begin])) && (first < last ==> comp(s[last], s[begin]))
  }

  lemma PlaceEdges<T>(s: seq<T>, t: seq<T>, begin: int, end: int, comp: (T, T) -> bool, pos: int, first: int, last: int)
    requires 0 <= begin <= pos < end <= |s| == |t| && ScansEnd(s, begin, first, last, end, comp)
    requires EdgesMoved(s, t, begin, first, last) && (first < last ==> first <= pos)
    ensures EdgesKept(s, Swapped(t, begin, pos), begin, end, comp, pos)
  {
    var u := Swapped(t, begin, pos);
    forall f, g | begin < f < g < end && Edges(s, begin, f, g, end, comp)
      ensures (forall i :: begin < i < f ==> u[i] == s[i]) && (pos == f ==> u[begin] == s[g])
    {
      assert f == first && g == last;
    }
  }

  lemma NotPartitioned<T>(s: seq<T>, lo: int, hi: int, pivot: T, comp: (T, T) -> bool, i: int, j: int)
    requires 0 <= lo <= i < j < hi <= |s|
    requires !comp(s[i], pivot) && comp(s[j], pivot)
    ensures !Partitioned(s, lo, hi, pivot, comp)
  {
    forall k | lo <= k <= hi ensures !CutAt(s, lo, k, hi, pivot, comp) {
      if i < k { assert lo <= i < k; } else { assert k <= j < hi; }
    }
  }

  /** Upwards past the elements below the pivot; `stop` is a position where the scan has to end. */
  method ScanUp<T(!new)>(a: array<T>, first0: int, pivot: T, comp: (T, T) -> bool,
                         ghost stop: int) returns (first: int, ghost used: nat)
    requires -1 <= first0 < stop < a.Length && !comp(a[stop], pivot)
    ensures first0 < first <= stop && !comp(a[first], pivot)
    ensures forall i :: first0 < i < first ==> comp(a[i], pivot)
    ensures used == first - first0
  {
    used := 1;
    first := first0 + 1;
    while comp(a[first], pivot)
      invariant first0 < first <= stop
      invariant used == first - first0
      invariant forall i :: first0 < i < first ==> comp(a[i], pivot)
      decreases stop - first
    {
      first := first + 1;
      used := used + 1;
    }
  }

  /** Downwards past the elements not below the pivot. */
  method ScanDown<T(!new)>(a: array<T>, last0: int, pivot: T, comp: (T, T) -> bool,
                           ghost stop: int) returns (last: int, ghost used: nat)
    requires 0 <= stop < last0 <= a.Length && comp(a[stop], pivot)
    ensures stop <= last < last0 && comp(a[last], pivot)
    ensures forall i :: last < i < last0 ==> !comp(a[i], pivot)
    ensures used == last0 - last
  {
    used := 1;
    last := last0 - 1;
    while !comp(a[last], pivot)
      decreases last
      invariant stop <= last < last0
      invariant used == last0 - last
      invariant forall i :: last < i < last0 ==> !comp(a[i], pivot)
    {
      last := last - 1;
      used := used + 1;
    }
  }

  /** The opening scans of both right partitions. The first is stopped by the element not below the
      pivot that the median guarantees; the second is guarded only if the first did not move. */
  method OpeningScans<T(!new)>(a: array<T>, begin: int, end: int, comp: (T, T) -> bool)
    returns (first: int, last: int, ghost used: nat)
    requires 0 <= begin < end <= a.Length
    requires exists i :: begin < i < end && Leq(comp, a[begin], a[i])
    ensures begin < first < end && first - 1 <= last < end
    ensures CutAt(a[..], begin + 1, first, first + 1, a[begin], comp)
    ensures forall i :: last < i < end ==> !comp(a[i], a[begin])
    ensures first < last ==> comp(a[last], a[begin])
    ensures first >= last <==> Partitioned(a[..], begin + 1, end, a[begin], comp)
    ensures used == (first - begin) + (end - last)
  {
    ghost var scanned;
    var pivot := a[begin];
    ghost var stop :| begin < stop < end && Leq(comp, pivot, a[stop]);
    first, used := ScanUp(a, begin, pivot, comp, stop);
    last := end;
    if first - 1 == begin {
      var go := true;
      while go && first < last
        invariant first <= last <= end
        invariant used == (first - begin) + (end - last)
        invariant forall i :: last < i < end ==> !comp(a[i], pivot)
        invariant go ==> last < end ==> !comp(a[last], pivot)
        invariant !go ==> last < end && comp(a[last], pivot)
        decreases last, go
      {
        last := last - 1;
        used := used + 1;
        go := !comp(a[last], pivot);
      }
    } else {
      last, scanned := ScanDown(a, end, pivot, comp, first - 1);
      used := used + scanned;
    }
    if first < last {
      NotPartitioned(a[..], begin + 1, end, pivot, comp, first, last);
    } else {
      assert CutAt(a[..], begin + 1, first, end, pivot, comp);
    }
  }

  method PartitionRight<T(!new)>(a: array<T>, begin: int, end: int, comp: (T, T) -> bool)
    returns (pos: int, already: bool, ghost used: nat)
    requires 0 <= begin < end <= a.Length
    requires exists i :: begin < i < end && Leq(comp, a[begin], a[i])
    modifies a
    ensures PartitionedRight(old(a[..]), a[..], begin, end, comp, pos, already)
    ensures used <= end - begin + 1
  {
    ghost var s := a[..];
    var pivot := a[begin];
    var first, last;
    ghost var up, down;
    first, last, used := OpeningScans(a, begin, end, comp);
    ghost var f, g := first, last;
    already := first >= last;
    while first < last
      invariant begin < first < end && first - 1 <= last < end
      invariant used == (first - begin) + (end - last)
      invariant a[begin] == pivot && Permuted(s, a[..], begin, end)
      invariant CutAt(a[..], begin + 1, first, first + 1, pivot, comp)
      invariant forall i :: last < i < end ==> !comp(a[i], pivot)
      invariant first < last ==> comp(a[last], pivot)
      invariant already ==> first >= last && a[..] == s
      invariant f <= first && (forall i :: begin < i < f ==> a[i] == s[i]) && (f == first ==> last == g && a[..] == s)
      invariant f < first ==> a[f] == s[g]
      decreases last - first
    {
      SwapWithin(a, first, last, begin, end, s);
      ghost var low, high := first, last;
      first, up := ScanUp(a, first, pivot, comp, high);
      last, down := ScanDown(a, last, pivot, comp, low);
      used := used + up + down;
      assert comp(a[first - 1], pivot);
    }
    pos := first - 1;
    PlacePivot(s, a[..], begin, end, comp, pos, already, f, g);
    IterSwap(a, begin, pos);
  }

  /** Downwards past the elements above the pivot. */
  method ScanDownAbove<T(!new)>(a: array<T>, last0: int, pivot: T, comp: (T, T) -> bool,
                                ghost stop: int) returns (last: int, ghost used: nat)
    requires 0 <= stop < last0 <= a.Length && !comp(pivot, a[stop])
    ensures stop <= last < last0 && !comp(pivot, a[last])
    ensures forall i :: last < i < last0 ==> comp(pivot, a[i])
    ensures used == last0 - last
  {
    used := 1;
    last := last0 - 1;
    while comp(pivot, a[last])
      decreases last
      invariant stop <= last < last0
      invariant used == last0 - last
      invariant forall i :: last < i < last0 ==> comp(pivot, a[i])
    {
      last := last - 1;
      used := used + 1;
    }
  }

  /** Upwards past the elements not above the pivot. */
  method ScanUpNotAbove<T(!new)>(a: array<T>, first0: int, pivot: T, comp: (T, T) -> bool,
                                 ghost stop: int) returns (first: int, ghost used: nat)
    requires -1 <= first0 < stop < a.Length && comp(pivot, a[stop])
    ensures first0 < first <= stop && comp(pivot, a[first])
    ensures forall i :: first0 < i < first ==> !comp(pivot, a[i])
    ensures used == first - first0
  {
    used := 1;
    first := first0 + 1;
    while !comp(pivot, a[first])
      invariant first0 < first <= stop
      invariant used == first - first0
      invariant forall i :: first0 < i < first ==> !comp(pivot, a[i])
      decreases stop - first
    {
      first := first + 1;
      used := used + 1;
    }
  }

  /** The opening scans of partition_left, the mirror image of OpeningScans. */
  method OpeningScansLeft<T(!new)>(a: array<T>, begin: int, end: int, comp: (T, T) -> bool)
    returns (first: int, last: int, ghost used: nat)
    requires 0 <= begin < end <= a.Length
    requires exists i :: begin < i < end && Leq(comp, a[i], a[begin])
    ensures begin < first <= last + 1 && begin < last < end
    ensures forall i :: begin < i < first ==> !comp(a[begin], a[i])
    ensures first < last ==> comp(a[begin], a[first])
    ensures !comp(a[begin], a[last]) && forall i :: last < i < end ==> comp(a[begin], a[i])
    ensures used == (first - begin) + (end - last)
  {
    ghost var scanned;
    var pivot := a[begin];
    ghost var stop :| begin < stop < end && Leq(comp, a[stop], pivot);
    first, last := begin, end;
    last, used := ScanDownAbove(a, last, pivot, comp, stop);
    if last + 1 == end {
      var go := true;
      while go && first < last
        invariant begin <= first <= last
        invariant used == (first - begin) + (end - last)
        invariant forall i :: begin < i < first ==> !comp(pivot, a[i])
        invariant go && first > begin ==> !comp(pivot, a[first])
        invariant !go ==> first > begin && comp(pivot, a[first])
        decreases last - first, go
      {
        first := first + 1;
        used := used + 1;
        go := !comp(pivot, a[first]);
      }
    } else {
      first, scanned := ScanUpNotAbove(a, first, pivot, comp, last + 1);
      used := used + scanned;
    }
  }

  /** Elements equivalent to the pivot go to its left: everything before pos is not above the pivot,
      everything after it is strictly above. */
  method PartitionLeft<T(!new)>(a: array<T>, begin: int, end: int, comp: (T, T) -> bool) returns (pos: int, ghost used: nat)
    requires 0 <= begin < end <= a.Length
    requires exists i :: begin < i < end && Leq(comp, a[i], a[begin])
    modifies a
    ensures begin <= pos < end && Permuted(old(a[..]), a[..], begin, end)
    ensures a[pos] == old(a[begin])
    ensures forall i :: begin <= i < pos ==> !comp(a[pos], a[i])
    ensures forall i :: pos < i < end ==> comp(a[pos], a[i])
    ensures used <= end - begin + 1
  {
    ghost var s := a[..];
    var pivot := a[begin];
    var first, last;
    ghost var up, down;
    first, last, used := OpeningScansLeft(a, begin, end, comp);
    while first < last
      invariant begin < last < end && begin < first <= last + 1
      invariant used == (first - begin) + (end - last)
      invariant a[begin] == pivot && Permuted(s, a[..], begin, end)
      invariant forall i :: begin < i < first ==> !comp(pivot, a[i])
      invariant first < last ==> comp(pivot, a[first])
      invariant !comp(pivot, a[last])
      invariant forall i :: last < i < end ==> comp(pivot, a[i])
      decreases last - first
    {
      SwapWithin(a, first, last, begin, end, s);
      ghost var low, high := first, last;
      last, down := ScanDownAbove(a, last, pivot, comp, low);
      assert comp(pivot, a[last + 1]);
      first, up := ScanUpNotAbove(a, first, pivot, comp, high);
      used := used + up + down;
    }
    pos := last;
    SwapWithin(a, begin, pos, begin, end, s);
  }
}
