/** Vocabulary of the sort: strict weak orders, sorted ranges and range permutations,
    all over plain sequences so that they can be applied to snapshots of an array. */
module PdqOrder {

  /** What std::sort-like algorithms demand of a comparator: irreflexive, transitive, and
      with a transitive incomparability relation. (`Triple` is always true; it only names the
      triples the verifier should look at.) */
  ghost predicate StrictWeakOrder<T(!new)>(comp: (T, T) -> bool) {
    && (forall x :: !comp(x, x))
    && (forall x, y, z {:trigger Triple(x, y, z)} :: Triple(x, y, z) ==>
          && (comp(x, y) && comp(y, z) ==> comp(x, z))
          && (Incomparable(comp, x, y) && Incomparable(comp, y, z) ==> Incomparable(comp, x, z)))
  }

  ghost predicate Triple<T>(x: T, y: T, z: T) { true }

  ghost predicate Incomparable<T>(comp: (T, T) -> bool, x: T, y: T) {
    !comp(x, y) && !comp(y, x)
  }

  /** "x is not after y": the total preorder behind a strict weak order. */
  ghost predicate Leq<T>(comp: (T, T) -> bool, x: T, y: T) {
    !comp(y, x)
  }

  lemma LeqTransitive<T(!new)>(comp: (T, T) -> bool, x: T, y: T, z: T)
    requires StrictWeakOrder(comp)
    requires Leq(comp, x, y) && Leq(comp, y, z)
    ensures Leq(comp, x, z)
  {
    assert Triple(x, y, z) && Triple(z, x, y) && Triple(y, z, x);
  }

  /** A strictly-less step followed or preceded by a weak one stays strict. */
  lemma LessLeq<T(!new)>(comp: (T, T) -> bool, x: T, y: T, z: T)
    requires StrictWeakOrder(comp)
    ensures comp(x, y) && Leq(comp, y, z) ==> comp(x, z)
    ensures Leq(comp, x, y) && comp(y, z) ==> comp(x, z)
    ensures comp(x, y) ==> Leq(comp, x, y)
  {
    if comp(x, y) && Leq(comp, y, z) && Leq(comp, z, x) {
      LeqTransitive(comp, y, z, x);
    }
    if Leq(comp, x, y) && comp(y, z) && Leq(comp, z, x) {
      LeqTransitive(comp, z, x, y);
    }
    assert Triple(x, y, x);
  }

  ghost predicate Sorted<T>(s: seq<T>, lo: int, hi: int, comp: (T, T) -> bool)
    requires 0 <= lo <= hi <= |s|
  {
    forall i, j :: lo <= i < j < hi ==> Leq(comp, s[i], s[j])
  }

  /** Everything in [lo, mid) is weakly below everything in [mid, hi). */
  ghost predicate Below<T>(s: seq<T>, lo: int, mid: int, hi: int, comp: (T, T) -> bool)
    requires 0 <= lo <= mid <= hi <= |s|
  {
    forall i, j :: lo <= i < mid <= j < hi ==> Leq(comp, s[i], s[j])
  }

  lemma SortedConcat<T(!new)>(s: seq<T>, lo: int, mid: int, hi: int, comp: (T, T) -> bool)
    requires 0 <= lo <= mid <= hi <= |s|
    requires Sorted(s, lo, mid, comp) && Sorted(s, mid, hi, comp) && Below(s, lo, mid, hi, comp)
    ensures Sorted(s, lo, hi, comp)
  {
  }

  /** `after` differs from `before` only by a rearrangement of [lo, hi). */
  ghost predicate Permuted<T>(before: seq<T>, after: seq<T>, lo: int, hi: int)
    requires 0 <= lo <= hi <= |before|
  {
    && |after| == |before|
    && (forall i :: 0 <= i < lo ==> after[i] == before[i])
    && (forall i :: hi <= i < |before| ==> after[i] == before[i])
    && SameBag(before, after, lo, hi)
  }

  /** Equal multisets. The equation is put behind a trigger: proofs that need it assert `Unfold(0)`,
      all others are spared it. */
  ghost predicate SameBag<T>(before: seq<T>, after: seq<T>, lo: int, hi: int)
    requires 0 <= lo <= hi <= |before| == |after|
  {
    forall m: nat {:trigger Unfold(m)} :: Unfold(m) ==> multiset(after[lo..hi]) == multiset(before[lo..hi])
  }

  ghost predicate Unfold(m: nat) { true }

  function Swapped<T>(s: seq<T>, i: int, j: int): (r: seq<T>)
    requires 0 <= i < |s| && 0 <= j < |s|
    ensures |r| == |s| && r[i] == s[j] && r[j] == s[i]
    ensures forall k :: 0 <= k < |s| && k != i && k != j ==> r[k] == s[k]
  {
    s[i := s[j]][j := s[i]]
  }

  lemma MultisetUpdate<T>(s: seq<T>, i: int, x: T)
    requires 0 <= i < |s|
    ensures multiset(s[i := x]) + multiset{s[i]} == multiset(s) + multiset{x}
  {
    assert s == s[..i] + [s[i]] + s[i + 1..];
    assert s[i := x] == s[..i] + [x] + s[i + 1..];
  }

  lemma SwappedIsPermuted<T>(s: seq<T>, i: int, j: int, lo: int, hi: int)
    requires 0 <= lo <= hi <= |s| && lo <= i < hi && lo <= j < hi
    ensures Permuted(s, Swapped(s, i, j), lo, hi)
  {
    var t := s[lo..hi];
    var u := t[i - lo := s[j]];
    MultisetUpdate(t, i - lo, s[j]);
    MultisetUpdate(u, j - lo, s[i]);
    assert Swapped(s, i, j)[lo..hi] == u[j - lo := s[i]];
    assert u[j - lo] == s[j];
  }

  lemma PermutedTransitive<T>(s: seq<T>, t: seq<T>, u: seq<T>, lo: int, hi: int)
    requires 0 <= lo <= hi <= |s|
    requires Permuted(s, t, lo, hi) && Permuted(t, u, lo, hi)
    ensures Permuted(s, u, lo, hi)
  {
  }

  lemma PermutedWiden<T>(s: seq<T>, t: seq<T>, lo: int, hi: int, lo': int, hi': int)
    requires 0 <= lo' <= lo <= hi <= hi' <= |s|
    requires Permuted(s, t, lo, hi)
    ensures Permuted(s, t, lo', hi')
  {
    assert Unfold(0);
    assert s[lo'..hi'] == s[lo'..lo] + s[lo..hi] + s[hi..hi'];
    assert t[lo'..hi'] == t[lo'..lo] + t[lo..hi] + t[hi..hi'];
    assert s[lo'..lo] == t[lo'..lo];
    assert s[hi..hi'] == t[hi..hi'];
  }

  /** Every element of a permuted range was in the range before. */
  lemma PermutedSource<T>(s: seq<T>, t: seq<T>, lo: int, hi: int, i: int) returns (j: int)
    requires 0 <= lo <= hi <= |s| && Permuted(s, t, lo, hi)
    requires lo <= i < hi
    ensures lo <= j < hi && t[i] == s[j]
  {
    assert Unfold(0);
    assert t[i] == t[lo..hi][i - lo];
    assert t[i] in multiset(t[lo..hi]);
    assert t[i] in s[lo..hi];
    var k :| 0 <= k < hi - lo && s[lo..hi][k] == t[i];
    j := lo + k;
  }

  /** A property of all elements of a range survives any rearrangement of that range. */
  lemma PermutedForall<T>(s: seq<T>, t: seq<T>, lo: int, hi: int, p: T -> bool)
    requires 0 <= lo <= hi <= |s| && Permuted(s, t, lo, hi)
    requires forall i :: lo <= i < hi ==> p(s[i])
    ensures forall i :: lo <= i < hi ==> p(t[i])
  {
    forall i | lo <= i < hi ensures p(t[i]) {
      var j := PermutedSource(s, t, lo, hi, i);
    }
  }

  /** A permutation inside either side of a cut keeps the cut. */
  lemma PermutedBelow<T>(s: seq<T>, t: seq<T>, lo: int, mid: int, hi: int, x: int, y: int, comp: (T, T) -> bool)
    requires 0 <= lo <= mid <= hi <= |s|
    requires (lo <= x <= y <= mid) || (mid <= x <= y <= hi)
    requires Permuted(s, t, x, y) && Below(s, lo, mid, hi, comp)
    ensures Below(t, lo, mid, hi, comp)
  {
    forall i, j | lo <= i < mid <= j < hi ensures Leq(comp, t[i], t[j]) {
      var i', j' := i, j;
      if x <= i < y { i' := PermutedSource(s, t, x, y, i); }
      if x <= j < y { j' := PermutedSource(s, t, x, y, j); }
    }
  }
}
