/** The three insertion sorts of the sort: guarded, unguarded (relying on a sentinel in front of the
    range) and partial (giving up after too many moves). As in all modules of the sort, the ghost result `used` is the
    number of comparisons made. */
module PdqInsertion {
  import opened PdqOrder
  import opened Sums

  const PARTIAL_INSERTION_SORT_LIMIT := 8

  /** The element found at `cur` taken out and put back at `k`, with [k, cur) moved up by one. */
  ghost predicate Inserted<T>(before: seq<T>, after: seq<T>, k: int, cur: int)
    requires 0 <= k <= cur < |before|
  {
    && |after| == |before|
    && after[k] == before[cur]
    && (forall i :: k < i <= cur ==> after[i] == before[i - 1])
    && (forall i :: 0 <= i < k || cur < i < |before| ==> after[i] == before[i])
  }

  lemma InsertedPermuted<T>(before: seq<T>, after: seq<T>, k: int, cur: int, lo: int)
    requires 0 <= lo <= k <= cur < |before| && Inserted(before, after, k, cur)
    ensures Permuted(before, after, lo, cur + 1)
  {
    assert after[lo..cur + 1] == before[lo..k] + [before[cur]] + before[k..cur];
    assert before[lo..cur + 1] == before[lo..k] + before[k..cur] + [before[cur]];
  }

  /** Inserting below everything strictly greater and above everything else keeps a prefix sorted. */
  lemma InsertedSorted<T(!new)>(before: seq<T>, after: seq<T>, lo: int, k: int, cur: int, comp: (T, T) -> bool)
    requires StrictWeakOrder(comp)
    requires 0 <= lo <= k <= cur < |before| && Inserted(before, after, k, cur)
    requires Sorted(before, lo, cur, comp)
    requires forall i :: k <= i < cur ==> comp(before[cur], before[i])
    requires k > lo ==> Leq(comp, before[k - 1], before[cur])
    ensures Sorted(after, lo, cur + 1, comp)
  {
    forall i, j | lo <= i < j <= cur ensures Leq(comp, after[i], after[j]) {
      if j == k {
        if i < k - 1 { LeqTransitive(comp, before[i], before[k - 1], before[cur]); }
      } else if i == k {
        LessLeq(comp, before[cur], before[j - 1], before[j - 1]);
      }
    }
  }

  /** The inner do-while of insertion_sort and partial_insertion_sort: sink a[cur], which is below its
      left neighbour, to its place in the sorted [begin, cur). */
  method SiftGuarded<T(!new)>(a: array<T>, begin: int, cur: int, comp: (T, T) -> bool) returns (sift: int, ghost used: nat)
    requires StrictWeakOrder(comp)
    requires 0 <= begin < cur < a.Length
    requires Sorted(a[..], begin, cur, comp) && comp(a[cur], a[cur - 1])
    modifies a
    ensures begin <= sift < cur && Inserted(old(a[..]), a[..], sift, cur)
    ensures forall i :: sift <= i < cur ==> comp(old(a[cur]), old(a[i]))
    ensures sift > begin ==> Leq(comp, old(a[sift - 1]), old(a[cur]))
    ensures Sorted(a[..], begin, cur + 1, comp)
    ensures used <= cur - sift
  {
    ghost var s := a[..];
    var tmp := a[cur];
    sift, used := cur, 0;
    var sift1 := cur - 1;
    var go := true;
    while go
      invariant begin <= sift <= cur && (go ==> sift1 == sift - 1 >= begin)
      invariant forall i :: 0 <= i < sift || cur < i < a.Length ==> a[i] == s[i]
      invariant forall i :: sift < i <= cur ==> a[i] == s[i - 1]
      invariant forall i :: sift <= i < cur ==> comp(tmp, s[i])
      invariant go ==> comp(tmp, s[sift1])
      invariant !go ==> sift < cur && (sift > begin ==> Leq(comp, s[sift - 1], tmp))
      invariant used <= cur - sift
      decreases sift, go
    {
      a[sift] := a[sift1];
      sift := sift - 1;
      go := false;
      if sift != begin {
        sift1 := sift1 - 1;
        go := comp(tmp, a[sift1]);
        used := used + 1;
      }
    }
    a[sift] := tmp;
    InsertedSorted(s, a[..], begin, sift, cur, comp);
  }

  /** The same loop without the bound check: a[begin - 1] stops it. */
  method SiftUnguarded<T(!new)>(a: array<T>, begin: int, cur: int, comp: (T, T) -> bool) returns (sift: int, ghost used: nat)
    requires StrictWeakOrder(comp)
    requires 1 <= begin < cur < a.Length
    requires Sorted(a[..], begin, cur, comp) && comp(a[cur], a[cur - 1])
    requires Leq(comp, a[begin - 1], a[cur])
    modifies a
    ensures begin <= sift < cur && Inserted(old(a[..]), a[..], sift, cur)
    ensures Sorted(a[..], begin, cur + 1, comp)
    ensures used <= cur - sift
  {
    ghost var s := a[..];
    var tmp := a[cur];
    sift, used := cur, 0;
    var sift1 := cur - 1;
    var go := true;
    while go
      invariant begin <= sift <= cur && sift1 == sift - 1 && (go ==> sift > begin)
      invariant forall i :: 0 <= i < sift || cur < i < a.Length ==> a[i] == s[i]
      invariant forall i :: sift < i <= cur ==> a[i] == s[i - 1]
      invariant forall i :: sift <= i < cur ==> comp(tmp, s[i])
      invariant go == comp(tmp, s[sift1])
      invariant !go ==> sift < cur
      invariant used <= cur - sift
      decreases sift
    {
      a[sift] := a[sift1];
      sift := sift - 1;
      sift1 := sift1 - 1;
      go := comp(tmp, a[sift1]);
      used := used + 1;
    }
    a[sift] := tmp;
    InsertedSorted(s, a[..], begin, sift, cur, comp);
  }

  /** An element that is not below its left neighbour extends the sorted prefix. */
  lemma ExtendSorted<T(!new)>(s: seq<T>, lo: int, cur: int, comp: (T, T) -> bool)
    requires StrictWeakOrder(comp)
    requires 0 <= lo < cur < |s| && Sorted(s, lo, cur, comp) && Leq(comp, s[cur - 1], s[cur])
    ensures Sorted(s, lo, cur + 1, comp)
  {
    forall i | lo <= i < cur ensures Leq(comp, s[i], s[cur]) {
      if i < cur - 1 { LeqTransitive(comp, s[i], s[cur - 1], s[cur]); }
    }
  }

  /** How many elements of [lo, hi) are strictly above x. */
  ghost function CountAbove<T>(s: seq<T>, lo: int, hi: int, x: T, comp: (T, T) -> bool): nat
    requires 0 <= lo <= |s| && hi <= |s|
    decreases hi
  {
    if hi <= lo then 0
    else CountAbove(s, lo, hi - 1, x, comp) + if comp(x, s[hi - 1]) then 1 else 0
  }

  /** Pairs of [lo, hi) that are strictly out of order. */
  ghost function Inversions<T>(s: seq<T>, lo: int, hi: int, comp: (T, T) -> bool): nat
    requires 0 <= lo <= |s| && hi <= |s|
    decreases hi
  {
    if hi <= lo then 0
    else Inversions(s, lo, hi - 1, comp) + CountAbove(s, lo, hi - 1, s[hi - 1], comp)
  }

  /** CountAbove depends on the elements of the range only as a multiset: dropping one occurrence. */
  lemma {:induction false} CountAboveRemove<T>(s: seq<T>, k: int, hi: int, x: T, comp: (T, T) -> bool)
    requires 0 <= k < hi <= |s|
    ensures CountAbove(s, 0, hi, x, comp)
         == CountAbove(s[..k] + s[k + 1..], 0, hi - 1, x, comp) + if comp(x, s[k]) then 1 else 0
    decreases hi
  {
    if k < hi - 1 {
      CountAboveRemove(s, k, hi - 1, x, comp);
    } else {
      assert s[0..k] == (s[..k] + s[k + 1..])[0..k];
      CountAboveAgree(s, 0, s[..k] + s[k + 1..], 0, k, x, comp);
    }
  }

  lemma {:induction false} CountAboveAgree<T>(s: seq<T>, i: int, t: seq<T>, j: int, n: nat, x: T, comp: (T, T) -> bool)
    requires 0 <= i <= i + n <= |s| && 0 <= j <= j + n <= |t|
    requires s[i..i + n] == t[j..j + n]
    ensures CountAbove(s, i, i + n, x, comp) == CountAbove(t, j, j + n, x, comp)
  {
    if n > 0 {
      assert s[i..i + n - 1] == s[i..i + n][..n - 1] && t[j..j + n - 1] == t[j..j + n][..n - 1];
      assert s[i + n - 1] == s[i..i + n][n - 1] && t[j + n - 1] == t[j..j + n][n - 1];
      CountAboveAgree(s, i, t, j, n - 1, x, comp);
    }
  }

  lemma MultisetRemove<T>(u: seq<T>, k: int)
    requires 0 <= k < |u|
    ensures multiset(u[..k] + u[k + 1..]) == multiset(u) - multiset{u[k]}
  {
    assert u == u[..k] + [u[k]] + u[k + 1..];
  }

  lemma {:induction false} CountAboveMultiset<T>(t: seq<T>, u: seq<T>, x: T, comp: (T, T) -> bool)
    requires multiset(t) == multiset(u)
    ensures |t| == |u|
    ensures CountAbove(t, 0, |t|, x, comp) == CountAbove(u, 0, |u|, x, comp)
    decreases |t|
  {
    assert |multiset(t)| == |t| && |multiset(u)| == |u|;
    if t != [] {
      var n := |t| - 1;
      assert t[n] in multiset(u);
      var k :| 0 <= k < |u| && u[k] == t[n];
      MultisetRemove(t, n);
      MultisetRemove(u, k);
      CountAboveMultiset(t[..n] + t[n + 1..], u[..k] + u[k + 1..], x, comp);
      CountAboveRemove(t, n, |t|, x, comp);
      CountAboveRemove(u, k, |u|, x, comp);
    }
  }

  lemma CountAboveSlice<T>(s: seq<T>, lo: int, hi: int, x: T, comp: (T, T) -> bool)
    requires 0 <= lo <= hi <= |s|
    ensures CountAbove(s, lo, hi, x, comp) == CountAbove(s[lo..hi], 0, hi - lo, x, comp)
  {
    var u := s[lo..hi];
    assert u == u[0..hi - lo];
    CountAboveAgree(s, lo, u, 0, hi - lo, x, comp);
  }

  lemma CountAbovePermuted<T>(s: seq<T>, t: seq<T>, lo: int, hi: int, x: T, comp: (T, T) -> bool)
    requires 0 <= lo <= hi <= |s| && Permuted(s, t, lo, hi)
    ensures CountAbove(s, lo, hi, x, comp) == CountAbove(t, lo, hi, x, comp)
  {
    CountAboveSlice(s, lo, hi, x, comp);
    CountAboveSlice(t, lo, hi, x, comp);
    assert Unfold(0);
    CountAboveMultiset(s[lo..hi], t[lo..hi], x, comp);
  }

  /** In a sorted prefix the number of elements to be moved is the number of elements above. */
  lemma {:induction false} MovesAreInversions<T(!new)>(s: seq<T>, lo: int, k: int, hi: int, x: T, comp: (T, T) -> bool)
    requires StrictWeakOrder(comp)
    requires 0 <= lo <= k <= hi <= |s| && Sorted(s, lo, hi, comp)
    requires forall i :: k <= i < hi ==> comp(x, s[i])
    requires k > lo ==> Leq(comp, s[k - 1], x)
    ensures CountAbove(s, lo, hi, x, comp) == hi - k
    decreases hi
  {
    if hi > k {
      MovesAreInversions(s, lo, k, hi - 1, x, comp);
    } else if k > lo {
      if k - 1 > lo { LeqTransitive(comp, s[k - 2], s[k - 1], x); }
      MovesAreInversions(s, lo, k - 1, k - 1, x, comp);
    }
  }

  lemma {:induction false} InversionsMonotone<T>(s: seq<T>, lo: int, mid: int, hi: int, comp: (T, T) -> bool)
    requires 0 <= lo <= mid <= hi <= |s|
    ensures Inversions(s, lo, mid, comp) <= Inversions(s, lo, hi, comp)
    decreases hi
  {
    if mid < hi { InversionsMonotone(s, lo, mid, hi - 1, comp); }
  }

  lemma InsertedMoves<T(!new)>(s0: seq<T>, s: seq<T>, lo: int, k: int, cur: int, comp: (T, T) -> bool)
    requires StrictWeakOrder(comp)
    requires 0 <= lo <= k <= cur < |s0| && Permuted(s0, s, lo, cur) && Sorted(s, lo, cur, comp)
    requires forall i :: k <= i < cur ==> comp(s[cur], s[i])
    requires k > lo ==> Leq(comp, s[k - 1], s[cur])
    ensures Inversions(s0, lo, cur + 1, comp) == Inversions(s0, lo, cur, comp) + (cur - k)
  {
    CountAbovePermuted(s0, s, lo, cur, s[cur], comp);
    MovesAreInversions(s, lo, k, cur, s[cur], comp);
  }

  lemma InsertedExtends<T>(s0: seq<T>, s: seq<T>, t: seq<T>, lo: int, k: int, cur: int)
    requires 0 <= lo <= k <= cur < |s0| && Permuted(s0, s, lo, cur) && Inserted(s, t, k, cur)
    ensures Permuted(s0, t, lo, cur + 1)
  {
    PermutedWiden(s0, s, lo, cur, lo, cur + 1);
    InsertedPermuted(s, t, k, cur, lo);
    PermutedTransitive(s0, s, t, lo, cur + 1);
  }

  /** One round of the outer loop; `moved` is what partial_insertion_sort adds to its `limit`. */
  method InsertNext<T(!new)>(a: array<T>, begin: int, cur: int, comp: (T, T) -> bool, ghost s0: seq<T>)
    returns (moved: int, ghost used: nat)
    requires StrictWeakOrder(comp)
    requires 0 <= begin < cur < a.Length && |s0| == a.Length
    requires Sorted(a[..], begin, cur, comp) && Permuted(s0, a[..], begin, cur)
    modifies a
    ensures Sorted(a[..], begin, cur + 1, comp) && Permuted(s0, a[..], begin, cur + 1)
    ensures Inversions(s0, begin, cur + 1, comp) == Inversions(s0, begin, cur, comp) + moved
    ensures 0 <= moved <= cur - begin && used <= moved + 1
  {
    var sift := cur;
    used := 1;
    if comp(a[cur], a[cur - 1]) {
      ghost var sifted;
      sift, sifted := SiftGuarded(a, begin, cur, comp);
      used := used + sifted;
    } else {
      ExtendSorted(a[..], begin, cur, comp);
    }
    moved := cur - sift;
    InsertedMoves(s0, old(a[..]), begin, sift, cur, comp);
    InsertedExtends(s0, old(a[..]), a[..], begin, sift, cur);
  }

  /** InsertNext as insertion_sort uses it, without the count of moves. */
  method GuardedInsertNext<T(!new)>(a: array<T>, begin: int, cur: int, comp: (T, T) -> bool, ghost s0: seq<T>)
    returns (ghost used: nat)
    requires StrictWeakOrder(comp)
    requires 0 <= begin < cur < a.Length && |s0| == a.Length
    requires Sorted(a[..], begin, cur, comp) && Permuted(s0, a[..], begin, cur)
    modifies a
    ensures Sorted(a[..], begin, cur + 1, comp) && Permuted(s0, a[..], begin, cur + 1)
    ensures used <= cur - begin + 1
  {
    var moved;
    moved, used := InsertNext(a, begin, cur, comp, s0);
  }

  method InsertionSort<T(!new)>(a: array<T>, begin: int, end: int, comp: (T, T) -> bool) returns (ghost used: nat)
    requires StrictWeakOrder(comp)
    requires 0 <= begin <= end <= a.Length
    modifies a
    ensures Sorted(a[..], begin, end, comp) && Permuted(old(a[..]), a[..], begin, end)
    ensures used <= Mul(end - begin, end - begin)
  {
    used := 0;
    if begin == end { return; }
    ghost var s0, size := a[..], end - begin;
    for cur := begin + 1 to end
      invariant Sorted(a[..], begin, cur, comp) && Permuted(s0, a[..], begin, cur)
      invariant used <= Mul(cur - begin, size)
    {
      ghost var inserted := GuardedInsertNext(a, begin, cur, comp, s0);
      used := used + inserted;
    }
  }

  method UnguardedInsertNext<T(!new)>(a: array<T>, begin: int, cur: int, comp: (T, T) -> bool, ghost s0: seq<T>)
    returns (ghost used: nat)
    requires StrictWeakOrder(comp)
    requires 1 <= begin < cur < a.Length && |s0| == a.Length
    requires Sorted(a[..], begin, cur, comp) && Permuted(s0, a[..], begin, cur)
    requires Leq(comp, a[begin - 1], a[cur])
    modifies a
    ensures Sorted(a[..], begin, cur + 1, comp) && Permuted(s0, a[..], begin, cur + 1)
    ensures used <= cur - begin + 1
  {
    var sift := cur;
    used := 1;
    if comp(a[cur], a[cur - 1]) {
      ghost var sifted;
      sift, sifted := SiftUnguarded(a, begin, cur, comp);
      used := used + sifted;
    } else {
      ExtendSorted(a[..], begin, cur, comp);
    }
    InsertedExtends(s0, old(a[..]), a[..], begin, sift, cur);
  }

  /** Assumes that a[begin - 1] is not above any element of the range; every read stays at begin - 1 or later. */
  method UnguardedInsertionSort<T(!new)>(a: array<T>, begin: int, end: int, comp: (T, T) -> bool) returns (ghost used: nat)
    requires StrictWeakOrder(comp)
    requires 1 <= begin <= end <= a.Length
    requires forall i :: begin <= i < end ==> Leq(comp, a[begin - 1], a[i])
    modifies a
    ensures Sorted(a[..], begin, end, comp) && Permuted(old(a[..]), a[..], begin, end)
    ensures used <= Mul(end - begin, end - begin)
  {
    used := 0;
    if begin == end { return; }
    ghost var s0 := a[..];
    assert forall i :: begin <= i < end ==> Leq(comp, s0[begin - 1], s0[i]);
    for cur := begin + 1 to end
      invariant Sorted(a[..], begin, cur, comp) && Permuted(s0, a[..], begin, cur)
      invariant used <= Mul(cur - begin, end - begin)
    {
      ghost var inserted := UnguardedInsertNext(a, begin, cur, comp, s0);
      used := used + inserted;
    }
  }

  /** The number of element moves is the number of inversions, so the answer is true, and the range is
      sorted, exactly when there are at most PARTIAL_INSERTION_SORT_LIMIT of them. */
  method PartialInsertionSort<T(!new)>(a: array<T>, begin: int, end: int, comp: (T, T) -> bool) returns (ok: bool,
                                       ghost used: nat)
    requires StrictWeakOrder(comp)
    requires 0 <= begin <= end <= a.Length
    modifies a
    ensures Permuted(old(a[..]), a[..], begin, end)
    ensures ok ==> Sorted(a[..], begin, end, comp)
    ensures ok <==> Inversions(old(a[..]), begin, end, comp) <= PARTIAL_INSERTION_SORT_LIMIT
    ensures used <= 2 * (end - begin) + PARTIAL_INSERTION_SORT_LIMIT
  {
    used := 0;
    if begin == end { return true, 0; }
    ghost var s0 := a[..];
    var limit, cur := 0, begin + 1;
    ok := true;
    assert Inversions(s0, begin, begin + 1, comp) == 0;
    while ok && cur != end
      invariant begin < cur <= end
      invariant Sorted(a[..], begin, cur, comp) && Permuted(s0, a[..], begin, cur)
      invariant limit == Inversions(s0, begin, cur, comp)
      invariant ok <==> limit <= PARTIAL_INSERTION_SORT_LIMIT
      invariant limit <= end - begin + PARTIAL_INSERTION_SORT_LIMIT && used <= cur - begin + limit
      decreases end - cur
    {
      var moved;
      ghost var inserted;
      moved, inserted := InsertNext(a, begin, cur, comp, s0);
      used := used + inserted;
      limit := limit + moved;
      cur := cur + 1;
      ok := limit <= PARTIAL_INSERTION_SORT_LIMIT;
    }
    InversionsMonotone(s0, begin, cur, end, comp);
    PermutedWiden(s0, a[..], begin, cur, begin, end);
  }
}
