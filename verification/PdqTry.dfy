/** pdqsort_try_sort: the sort that gives up early, and exactly when it does. */
module PdqTry {
  import opened Bits
  import opened PdqOrder
  import opened PdqAnswer
  import opened PdqDepth
  import opened PdqHeap
  import opened PdqInsertion
  import opened PdqPartition
  import opened PdqSort

  const TRY_SORT_ITERATIONS := 3
  const NUM_TO_TRY := 16
  const SIZE_T_MODULUS := 0x1_0000_0000_0000_0000

  // ---------------------------------------------------------------- the answer

  /** The answer of an unforced run, from the arrays it meets: the range has to be short before the iterations run out, or to
      be quiet; an unbalanced split ends the run, any other one hands the left part on. */
  ghost predicate Answer<T>(states: seq<seq<T>>, begin: int, end: int, comp: (T, T) -> bool, iterations: nat, ok: bool)
    requires 0 <= begin <= end && forall i :: 0 <= i < |states| ==> end <= |states[i]|
    decreases iterations
  {
    if iterations == 0 then !ok && states == []
    else if end - begin < 24 then ok && states == []
    else
      && states != []
      && var s := states[0];
         var pos := SplitAt(s, begin, end, comp);
         && begin <= pos < end
         && if Unbalanced(begin, pos, end) then !ok && |states| == 1
            else if Quiet(s, begin, pos, end, comp) then ok && |states| == 1
            else
              && (|states| > 1 ==> |states[1]| == |s| && Permuted(s, states[1], begin, end)
                                   && Around(states[1], begin, pos, end, comp) && Moved(s, states[1], begin, pos, end, comp))
              && Answer(states[1..], begin, pos, comp, iterations - 1, ok)
  }

  /** The last of the splits is unbalanced. */
  ghost predicate EndsUnbalanced<T>(states: seq<seq<T>>, begin: int, end: int, comp: (T, T) -> bool)
    requires 0 <= begin <= end && forall i :: 0 <= i < |states| ==> end <= |states[i]|
    decreases |states|
  {
    states != [] && end - begin >= 24
    && var pos := SplitAt(states[0], begin, end, comp);
       begin <= pos < end && if |states| == 1 then Unbalanced(begin, pos, end) else EndsUnbalanced(states[1..], begin, pos, comp)
  }

  /** False is answered only after an unbalanced split, or after as many splits as there are iterations; */
  lemma {:induction false} FalseMeans<T>(states: seq<seq<T>>, begin: int, end: int, comp: (T, T) -> bool, iterations: nat)
    requires 0 <= begin <= end && forall i :: 0 <= i < |states| ==> end <= |states[i]|
    requires Answer(states, begin, end, comp, iterations, false)
    ensures |states| == iterations || (|states| < iterations && EndsUnbalanced(states, begin, end, comp))
    decreases iterations
  {
    if iterations > 0 && end - begin >= 24 {
      var s := states[0];
      var pos := SplitAt(s, begin, end, comp);
      if !Unbalanced(begin, pos, end) && !Quiet(s, begin, pos, end, comp) {
        FalseMeans(states[1..], begin, pos, comp, iterations - 1);
      }
    }
  }

  /** true is not answered after an unbalanced split. */
  lemma {:induction false} TrueMeans<T>(states: seq<seq<T>>, begin: int, end: int, comp: (T, T) -> bool, iterations: nat)
    requires 0 <= begin <= end && forall i :: 0 <= i < |states| ==> end <= |states[i]|
    requires Answer(states, begin, end, comp, iterations, true)
    ensures |states| <= iterations && !EndsUnbalanced(states, begin, end, comp)
    decreases iterations
  {
    if iterations > 0 && end - begin >= 24 {
      var s := states[0];
      var pos := SplitAt(s, begin, end, comp);
      if !Quiet(s, begin, pos, end, comp) { TrueMeans(states[1..], begin, pos, comp, iterations - 1); }
    }
  }

  // ---------------------------------------------------------------- the loop

  /** size_t arithmetic wraps; the wrapped value is only ever compared once sorting is forced. */
  function Decrement(n: nat): (m: nat)
    ensures n > 0 && n <= SIZE_T_MODULUS ==> m == n - 1
  {
    (n - 1) % SIZE_T_MODULUS
  }

  /** What an unforced run on the array s records. Unfolded by `Seen(0)`. */
  ghost predicate Recorded<T>(states: seq<seq<T>>, s: seq<T>, begin: int, end: int, comp: (T, T) -> bool,
                              iterations: nat, ok: bool)
    requires 0 <= begin <= end <= |s|
  {
    forall m: nat {:trigger Seen(m)} :: Seen(m) ==>
      && (forall i :: 0 <= i < |states| ==> |states[i]| == |s|)
      && (states != [] ==> states[0] == s)
      && Answer(states, begin, end, comp, iterations, ok)
  }

  lemma RecordedAtOnce<T>(s: seq<T>, begin: int, end: int, comp: (T, T) -> bool, iterations: nat)
    requires 0 <= begin <= end <= |s|
    ensures iterations == 0 ==> Recorded([], s, begin, end, comp, iterations, false)
    ensures iterations > 0 && end - begin < 24 ==> Recorded([], s, begin, end, comp, iterations, true)
  {
  }

  lemma RecordedTurn<T>(s: seq<T>, begin: int, end: int, comp: (T, T) -> bool, pos: int, iterations: nat,
                        gaveUp: bool, done: bool)
    requires 0 <= begin && begin + 24 <= end <= |s| && iterations > 0
    requires Decided(s, begin, end, comp, pos, gaveUp, done) && gaveUp != done
    ensures Recorded([s], s, begin, end, comp, iterations, done)
  {
    assert Seen(0);
  }

  /** The first turn of an unforced run, and the run in its left part. */
  lemma RecordedSplit<T>(s: seq<T>, t: seq<T>, rest: seq<seq<T>>, begin: int, pos: int, end: int, comp: (T, T) -> bool,
                         iterations: nat, ok: bool)
    requires 0 <= begin <= pos < end && begin + 24 <= end <= |s| == |t| && iterations > 0
    requires Decided(s, begin, end, comp, pos, false, false)
    requires Permuted(s, t, begin, end) && Around(t, begin, pos, end, comp) && SplitFrom(s, t, begin, pos, end, comp)
    requires Recorded(rest, t, begin, pos, comp, iterations - 1, ok)
    ensures Recorded([s] + rest, s, begin, end, comp, iterations, ok)
  {
    assert Seen(0);
    assert ([s] + rest)[1..] == rest;
  }

  method TrySortLoop<T(!new)>(a: array<T>, begin: int, end: int, comp: (T, T) -> bool, branchless: bool,
                              badAllowed: int, iterations: nat, force: bool, leftmost: bool,
                              ghost chain: Chain, ghost credit: nat)
    returns (ok: bool, ghost used: nat, ghost states: seq<seq<T>>)
    requires StrictWeakOrder(comp) && 0 <= begin <= end <= a.Length && iterations <= SIZE_T_MODULUS
    requires Sentinel(a[..], begin, end, leftmost, comp)
    requires Solvent(chain, end - begin, badAllowed, false, credit)
    modifies a
    ensures Permuted(old(a[..]), a[..], begin, end)
    ensures ok ==> Sorted(a[..], begin, end, comp)
    ensures force || (iterations != 0 && end - begin < INSERTION_SORT_THRESHOLD) ==> ok
    ensures !force && leftmost ==> Recorded(states, old(a[..]), begin, end, comp, iterations, ok)
    ensures used <= credit
    decreases end - begin
  {
    used := 0;
    GoingStart(a[..], begin, end, leftmost, comp, chain, badAllowed, credit);
    ghost var s0, c, above, saved: int := a[..], chain, false, credit;
    states := [];
    RecordedAtOnce(s0, begin, end, comp, iterations);
    var b, bad, left, forced, remaining := begin, badAllowed, leftmost, force, iterations;
    while true
      invariant begin <= b <= end && Going(s0, a[..], begin, b, end, left, comp, c, bad, above, saved)
      invariant used + saved <= credit
      invariant force ==> forced
      invariant end - begin < INSERTION_SORT_THRESHOLD ==> remaining == iterations
      invariant leftmost && !forced ==> b == begin && left && a[..] == s0 && remaining == iterations && states == []
      invariant leftmost && forced && !force ==> Recorded(states, s0, begin, end, comp, iterations, true)
      decreases end - b
    {
      if !forced && remaining == 0 {
        GoingMeans(s0, a[..], begin, b, end, left, comp, c, bad, above, saved);
        return false, used, states;
      }
      var out, pos, bad', unbalanced;
      ghost var more;
      out, pos, bad', unbalanced, more := Turn(a, begin, b, end, comp, branchless, left, bad, !forced, s0, c, above, saved);
      used := used + more;
      if out == GaveUp || out == AllSorted {
        if !forced && leftmost && end - begin >= 24 {
          RecordedTurn(s0, begin, end, comp, pos, iterations, out == GaveUp, out == AllSorted);
          states := [s0];
        }
        return out == AllSorted, used, states;
      }
      if out == EqualsSkipped {
        saved := saved - more;
        b, left, above := pos + 1, false, true;
      } else {
        ghost var t := a[..];
        ghost var inner, outer, first := Recursing(s0, t, begin, b, pos, end, left, comp, c, bad, bad', unbalanced, above, saved, more);
        ghost var left0, other, record := saved - more - first, 0, [];
        ok, other, record := TrySortLoop(a, b, pos, comp, branchless, bad', Decrement(remaining), forced, left, inner, first);
        used := used + other;
        Resuming(s0, t, a[..], begin, b, pos, end, left, comp, c, bad, bad', unbalanced, above, saved, more, outer, left0);
        if !forced && leftmost {
          RecordedSplit(s0, t, record, begin, pos, end, comp, iterations, ok);
          states := [s0] + record;
        }
        if !ok { return false, used, states; }
        forced := true;
        remaining := Decrement(remaining);
        b, bad, left, above, c, saved := pos + 1, bad', false, false, outer, left0;
      }
    }
  }

  // ---------------------------------------------------------------- the sampling

  /** The elements at offset * (i - 1), offset * i and offset * (i + 1) - 1 do not rise or fall both times. */
  predicate Broken<T>(s: seq<T>, begin: int, offset: int, i: int, comp: (T, T) -> bool) {
    var prev, curr, next := begin + offset * (i - 1), begin + offset * i, begin + (offset * (i + 1) - 1);
    0 <= prev < |s| && 0 <= curr < |s| && 0 <= next < |s| && comp(s[prev], s[curr]) != comp(s[curr], s[next])
  }

  ghost function BrokenSamples<T>(s: seq<T>, begin: int, offset: int, n: int, comp: (T, T) -> bool): set<int> {
    set i | 1 <= i < n && Broken(s, begin, offset, i, comp)
  }

  /** What the sampling refuses: more than 160 elements and more than three of the fifteen samples broken. */
  ghost predicate Refused<T>(s: seq<T>, begin: int, end: int, comp: (T, T) -> bool) {
    end - begin > 160 && |BrokenSamples(s, begin, (end - begin) / 16, 16, comp)| > 3
  }

  lemma SampleInRange(size: int, offset: int, i: int)
    requires size >= NUM_TO_TRY && offset == size / NUM_TO_TRY && 1 <= i < NUM_TO_TRY
    ensures 0 <= offset * (i - 1) < size && 0 <= offset * i < size && 0 <= offset * (i + 1) - 1 < size
  {
    assert 0 <= offset * (i - 1) && offset * (i - 1) + offset == offset * i && offset * i + offset == offset * (i + 1);
    MulLe(i + 1, NUM_TO_TRY, offset);
  }

  lemma OneMoreSample<T>(s: seq<T>, begin: int, offset: int, i: int, comp: (T, T) -> bool)
    requires i >= 1
    ensures |BrokenSamples(s, begin, offset, i + 1, comp)|
            == |BrokenSamples(s, begin, offset, i, comp)| + if Broken(s, begin, offset, i, comp) then 1 else 0
  {
    assert BrokenSamples(s, begin, offset, i + 1, comp)
           == BrokenSamples(s, begin, offset, i, comp) + if Broken(s, begin, offset, i, comp) then {i} else {};
  }

  lemma {:induction false} MoreSamples<T>(s: seq<T>, begin: int, offset: int, m: int, n: int, comp: (T, T) -> bool)
    requires 1 <= m <= n
    ensures |BrokenSamples(s, begin, offset, m, comp)| <= |BrokenSamples(s, begin, offset, n, comp)|
    decreases n
  {
    if m < n {
      MoreSamples(s, begin, offset, m, n - 1, comp);
      OneMoreSample(s, begin, offset, n - 1, comp);
    }
  }

  /** Looks at the i-th sample point. */
  method SampleAt<T(!new)>(a: array<T>, begin: int, size: int, i: int, comp: (T, T) -> bool) returns (broken: bool,
                           ghost used: nat)
    requires 0 <= begin && NUM_TO_TRY <= size && begin + size <= a.Length && 1 <= i < NUM_TO_TRY
    ensures broken <==> Broken(a[..], begin, size / NUM_TO_TRY, i, comp)
    ensures used == 2
  {
    var offset := size / NUM_TO_TRY;
    SampleInRange(size, offset, i);
    var prev, curr, next := offset * (i - 1), offset * i, offset * (i + 1) - 1;
    var prevLessThanCurr := comp(a[begin + prev], a[begin + curr]);
    var currLessThanNext := comp(a[begin + curr], a[begin + next]);
    broken := !((prevLessThanCurr && currLessThanNext) || (!prevLessThanCurr && !currLessThanNext));
    used := 2;
  }

  /** The sampling of pdqsort_try_sort_impl: large inputs with too many non-monotone sample points are refused. */
  method LooksUnsorted<T(!new)>(a: array<T>, begin: int, end: int, comp: (T, T) -> bool) returns (refuse: bool,
                                ghost used: nat)
    requires 0 <= begin <= end <= a.Length
    ensures refuse <==> Refused(a[..], begin, end, comp)
    ensures used <= end - begin
  {
    used := 0;
    var size := end - begin;
    if size > NUM_TO_TRY * 10 {
      var outOfOrder := 0;
      ghost var s, offset := a[..], size / NUM_TO_TRY;
      for i := 1 to NUM_TO_TRY
        invariant outOfOrder == |BrokenSamples(s, begin, offset, i, comp)| <= TRY_SORT_ITERATIONS
        invariant used == 2 * (i - 1)
      {
        var broken;
        ghost var compared;
        broken, compared := SampleAt(a, begin, size, i, comp);
        used := used + compared;
        OneMoreSample(s, begin, offset, i, comp);
        if broken {
          outOfOrder := outOfOrder + 1;
          if outOfOrder > TRY_SORT_ITERATIONS {
            MoreSamples(s, begin, offset, i + 1, NUM_TO_TRY, comp);
            return true, used;
          }
        }
      }
    }
    return false, used;
  }

  // ---------------------------------------------------------------- sorted ranges

  function Middle(begin: int, end: int): int {
    begin + (end - begin) / 2
  }

  /** The first place of a sorted range whose element is not below the middle one. */
  ghost function FirstOfMiddle<T>(s: seq<T>, begin: int, end: int, comp: (T, T) -> bool): int
    requires 0 <= begin < end <= |s|
  {
    begin + CountBelow(s, begin, end, s[Middle(begin, end)], comp)
  }

  /** Whether a sorted range is recognised: not if less than an eighth of it is below its middle element; if that is the first
      of its kind, yes; otherwise it depends on the part below. */
  ghost predicate Recognised<T>(s: seq<T>, begin: int, end: int, comp: (T, T) -> bool, iterations: nat)
    requires 0 <= begin <= end <= |s|
    decreases iterations
  {
    iterations > 0 &&
    (end - begin < 24 ||
     var first := FirstOfMiddle(s, begin, end, comp);
     && (end - begin) / 8 <= first - begin && first <= Middle(begin, end)
     && (first == Middle(begin, end) || Recognised(s, begin, first, comp, iterations - 1)))
  }

  /** Nothing to order in three places of a sorted range. */
  lemma OrderedAlready<T>(s: seq<T>, begin: int, end: int, i: int, j: int, k: int, comp: (T, T) -> bool)
    requires 0 <= begin <= i < j < k < end <= |s| && Sorted(s, begin, end, comp)
    ensures Ordered3(s, i, j, k, comp) == s
  {
    RoundsOf3(s, i, j, k, comp);
  }

  /** The pivot of a sorted range is its middle element, or one like it if the first is. */
  lemma SortedPivoted<T(!new)>(s: seq<T>, begin: int, end: int, comp: (T, T) -> bool)
    requires StrictWeakOrder(comp) && 0 <= begin && begin + 24 <= end <= |s| && Sorted(s, begin, end, comp)
    ensures var mid := Middle(begin, end);
            Pivoted(s, begin, end, comp) == if end - begin > 128 || comp(s[begin], s[mid]) then Swapped(s, begin, mid) else s
  {
    var mid := Middle(begin, end);
    if end - begin > 128 {
      OrderedAlready(s, begin, end, begin, mid, end - 1, comp);
      OrderedAlready(s, begin, end, begin + 1, mid - 1, end - 2, comp);
      OrderedAlready(s, begin, end, begin + 2, mid + 1, end - 3, comp);
      OrderedAlready(s, begin, end, mid - 1, mid, mid + 1, comp);
    } else {
      RoundsOf3(s, mid, begin, end - 1, comp);
      var t := Ordered2(s, mid, begin, comp);
      LessLeq(comp, s[begin], s[mid], s[begin]);
      assert Swapped(s, mid, begin) == Swapped(s, begin, mid);
    }
  }

  lemma {:induction false} SortedCut<T(!new)>(s: seq<T>, begin: int, end: int, x: T, comp: (T, T) -> bool) returns (k: int)
    requires StrictWeakOrder(comp) && 0 <= begin <= end <= |s| && Sorted(s, begin, end, comp)
    ensures begin <= k <= end && CutAt(s, begin, k, end, x, comp)
    decreases end
  {
    if begin == end { return begin; }
    if comp(s[end - 1], x) {
      forall i | begin <= i < end ensures comp(s[i], x) { LessLeq(comp, s[i], s[end - 1], x); }
      return end;
    }
    k := SortedCut(s, begin, end - 1, x, comp);
  }

  /** It is indeed the first such place, and not behind the middle. */
  lemma FirstOfMiddleCut<T(!new)>(s: seq<T>, begin: int, end: int, comp: (T, T) -> bool)
    requires StrictWeakOrder(comp) && 0 <= begin < end <= |s| && Sorted(s, begin, end, comp)
    ensures var mid, first := Middle(begin, end), FirstOfMiddle(s, begin, end, comp);
            begin <= first <= mid && CutAt(s, begin, first, end, s[mid], comp)
  {
    var mid := Middle(begin, end);
    var k := SortedCut(s, begin, end, s[mid], comp);
    CountBelowCut(s, begin, k, end, s[mid], comp);
    assert !comp(s[mid], s[mid]);
  }

  /** A sorted range is split there. */
  lemma SortedSplit<T(!new)>(s: seq<T>, begin: int, end: int, comp: (T, T) -> bool)
    requires StrictWeakOrder(comp) && 0 <= begin && begin + 24 <= end <= |s| && Sorted(s, begin, end, comp)
    ensures SplitAt(s, begin, end, comp) == FirstOfMiddle(s, begin, end, comp)
  {
    var mid := Middle(begin, end);
    SortedPivoted(s, begin, end, comp);
    FirstOfMiddleCut(s, begin, end, comp);
    if end - begin <= 128 && !comp(s[begin], s[mid]) {
      assert !comp(s[begin], s[begin]);
      assert CutAt(s, begin, begin, end, s[begin], comp);
      CountBelowCut(s, begin, begin, end, s[begin], comp);
    }
  }

  lemma {:induction false} NoneAbove<T>(s: seq<T>, lo: int, hi: int, x: T, comp: (T, T) -> bool)
    requires 0 <= lo <= hi <= |s| && forall i :: lo <= i < hi ==> !comp(x, s[i])
    ensures CountAbove(s, lo, hi, x, comp) == 0
    decreases hi
  {
    if lo < hi { NoneAbove(s, lo, hi - 1, x, comp); }
  }

  lemma {:induction false} NoInversions<T>(s: seq<T>, lo: int, hi: int, comp: (T, T) -> bool)
    requires 0 <= lo <= hi <= |s| && Sorted(s, lo, hi, comp)
    ensures Inversions(s, lo, hi, comp) == 0
    decreases hi
  {
    if lo < hi {
      NoInversions(s, lo, hi - 1, comp);
      NoneAbove(s, lo, hi - 1, s[hi - 1], comp);
    }
  }

  /** If something is below the middle element, that one is exchanged with the first. */
  lemma SortedExchange<T(!new)>(s: seq<T>, begin: int, end: int, comp: (T, T) -> bool)
    requires StrictWeakOrder(comp) && 0 <= begin && begin + 24 <= end <= |s| && Sorted(s, begin, end, comp)
    requires begin < FirstOfMiddle(s, begin, end, comp)
    ensures Pivoted(s, begin, end, comp) == Swapped(s, begin, Middle(begin, end))
  {
    FirstOfMiddleCut(s, begin, end, comp);
    SortedPivoted(s, begin, end, comp);
  }

  /** A split in the middle finds the range partitioned and without inversions; */
  lemma SortedQuiet<T(!new)>(s: seq<T>, begin: int, end: int, comp: (T, T) -> bool)
    requires StrictWeakOrder(comp) && 0 <= begin && begin + 24 <= end <= |s| && Sorted(s, begin, end, comp)
    requires FirstOfMiddle(s, begin, end, comp) == Middle(begin, end)
    ensures Quiet(s, begin, Middle(begin, end), end, comp)
  {
    var mid := Middle(begin, end);
    var t := Swapped(s, begin, mid);
    SortedExchange(s, begin, end, comp);
    FirstOfMiddleCut(s, begin, end, comp);
    assert CutAt(t, begin + 1, mid + 1, end, s[mid], comp);
    assert Swapped(t, begin, mid) == s;
    NoInversions(s, begin, mid, comp);
    NoInversions(s, mid + 1, end, comp);
  }

  /** any other one finds the first element, exchanged with the middle one, behind elements like the pivot. */
  lemma SortedNotQuiet<T(!new)>(s: seq<T>, begin: int, end: int, comp: (T, T) -> bool)
    requires StrictWeakOrder(comp) && 0 <= begin && begin + 24 <= end <= |s| && Sorted(s, begin, end, comp)
    requires begin < FirstOfMiddle(s, begin, end, comp) < Middle(begin, end)
    ensures var t := Pivoted(s, begin, end, comp); !Partitioned(t, begin + 1, end, t[begin], comp)
    ensures !Quiet(s, begin, FirstOfMiddle(s, begin, end, comp), end, comp)
  {
    var mid, first := Middle(begin, end), FirstOfMiddle(s, begin, end, comp);
    FirstOfMiddleCut(s, begin, end, comp);
    SortedExchange(s, begin, end, comp);
    NotPartitioned(Swapped(s, begin, mid), begin + 1, end, s[mid], comp, first, mid);
  }

  /** Such a split leaves the part below as it was. */
  lemma SortedMoved<T(!new)>(s: seq<T>, u: seq<T>, begin: int, end: int, comp: (T, T) -> bool)
    requires StrictWeakOrder(comp) && 0 <= begin && begin + 24 <= end <= |s| == |u| && Sorted(s, begin, end, comp)
    requires begin < FirstOfMiddle(s, begin, end, comp) < Middle(begin, end)
    requires Moved(s, u, begin, FirstOfMiddle(s, begin, end, comp), end, comp)
    ensures forall i :: begin <= i < FirstOfMiddle(s, begin, end, comp) ==> u[i] == s[i]
  {
    var mid, first := Middle(begin, end), FirstOfMiddle(s, begin, end, comp);
    var t := Swapped(s, begin, mid);
    FirstOfMiddleCut(s, begin, end, comp);
    SortedExchange(s, begin, end, comp);
    SortedNotQuiet(s, begin, end, comp);
    assert Edges(t, begin, first, mid, end, comp);
  }

  lemma {:induction false} RecognisedAgree<T>(s: seq<T>, t: seq<T>, begin: int, end: int, comp: (T, T) -> bool,
                                              iterations: nat)
    requires 0 <= begin <= end <= |s| == |t| && forall i :: begin <= i < end ==> s[i] == t[i]
    ensures Recognised(s, begin, end, comp, iterations) == Recognised(t, begin, end, comp, iterations)
    decreases iterations
  {
    if iterations > 0 && end - begin >= 24 {
      var x := s[Middle(begin, end)];
      assert (set i | begin <= i < end && comp(s[i], x)) == (set i | begin <= i < end && comp(t[i], x));
      var first := FirstOfMiddle(s, begin, end, comp);
      if begin <= first <= Middle(begin, end) { RecognisedAgree(s, t, begin, first, comp, iterations - 1); }
    }
  }

  /** What a record says of its first turn; t is the array in whose left part the run goes on. */
  lemma RecordedCases<T>(states: seq<seq<T>>, s: seq<T>, begin: int, end: int, comp: (T, T) -> bool, iterations: nat,
                         ok: bool)
    returns (rest: seq<seq<T>>, t: seq<T>)
    requires 0 <= begin && begin + 24 <= end <= |s| && iterations > 0 && Recorded(states, s, begin, end, comp, iterations, ok)
    ensures var pos := SplitAt(s, begin, end, comp);
            && begin <= pos < end && |t| == |s|
            && (Unbalanced(begin, pos, end) ==> !ok)
            && (!Unbalanced(begin, pos, end) && Quiet(s, begin, pos, end, comp) ==> ok)
            && (!Unbalanced(begin, pos, end) && !Quiet(s, begin, pos, end, comp) ==>
                  Recorded(rest, t, begin, pos, comp, iterations - 1, ok) && (t == s || Moved(s, t, begin, pos, end, comp)))
  {
    assert Seen(0);
    rest := states[1..];
    t := if |states| > 1 then states[1] else s;
  }

  /** An unforced run on a sorted range answers true exactly if the range is recognised. */
  lemma {:induction false} SortedRun<T(!new)>(states: seq<seq<T>>, s: seq<T>, begin: int, end: int, comp: (T,
                                              T) -> bool, iterations: nat, ok: bool)
    requires StrictWeakOrder(comp) && 0 <= begin <= end <= |s| && Sorted(s, begin, end, comp)
    requires Recorded(states, s, begin, end, comp, iterations, ok)
    ensures ok <==> Recognised(s, begin, end, comp, iterations)
    decreases iterations
  {
    if iterations == 0 || end - begin < 24 {
      assert Seen(0);
    } else {
      var rest, t := RecordedCases(states, s, begin, end, comp, iterations, ok);
      var first := FirstOfMiddle(s, begin, end, comp);
      SortedSplit(s, begin, end, comp);
      FirstOfMiddleCut(s, begin, end, comp);
      if !Unbalanced(begin, first, end) {
        if first == Middle(begin, end) {
          SortedQuiet(s, begin, end, comp);
        } else {
          SortedNotQuiet(s, begin, end, comp);
          if t != s { SortedMoved(s, t, begin, end, comp); }
          SortedRun(rest, t, begin, first, comp, iterations - 1, ok);
          RecognisedAgree(s, t, begin, first, comp, iterations - 1);
        }
      }
    }
  }

  // ---------------------------------------------------------------- increasing and constant ranges

  ghost predicate Increasing<T>(s: seq<T>, begin: int, end: int, comp: (T, T) -> bool)
    requires 0 <= begin <= end <= |s|
  {
    forall i, j :: begin <= i < j < end ==> comp(s[i], s[j])
  }

  lemma NoBrokenSamples<T>(s: seq<T>, begin: int, end: int, comp: (T, T) -> bool)
    requires 0 <= begin <= end <= |s| && Increasing(s, begin, end, comp)
    ensures !Refused(s, begin, end, comp)
  {
    var size := end - begin;
    var offset := size / 16;
    if size > 160 {
      forall i | 1 <= i < 16 ensures !Broken(s, begin, offset, i, comp) {
        SampleInRange(size, offset, i);
        assert offset * i == offset * (i - 1) + offset && offset * (i + 1) == offset * i + offset;
      }
      assert BrokenSamples(s, begin, offset, 16, comp) == {};
    }
  }

  /** A strictly increasing range is sorted and always recognised. */
  lemma IncreasingIsRecognised<T(!new)>(s: seq<T>, begin: int, end: int, comp: (T, T) -> bool, iterations: nat)
    requires StrictWeakOrder(comp) && 0 <= begin <= end <= |s| && Increasing(s, begin, end, comp) && iterations > 0
    ensures Sorted(s, begin, end, comp) && Recognised(s, begin, end, comp, iterations)
  {
    forall i, j | begin <= i < j < end ensures Leq(comp, s[i], s[j]) { LessLeq(comp, s[i], s[j], s[i]); }
    if end - begin >= 24 {
      var mid := Middle(begin, end);
      assert !comp(s[mid], s[mid]);
      assert CutAt(s, begin, mid, end, s[mid], comp);
      CountBelowCut(s, begin, mid, end, s[mid], comp);
    }
  }

  /** A sorted range of 24 or more elements all alike is not, although it is sorted. */
  lemma ConstantIsNotRecognised<T(!new)>(s: seq<T>, begin: int, end: int, comp: (T, T) -> bool, iterations: nat)
    requires StrictWeakOrder(comp) && 0 <= begin && begin + 24 <= end <= |s|
    requires forall i, j :: begin <= i < end && begin <= j < end ==> !comp(s[i], s[j])
    ensures Sorted(s, begin, end, comp) && !Recognised(s, begin, end, comp, iterations)
  {
    var mid := Middle(begin, end);
    assert CutAt(s, begin, begin, end, s[mid], comp);
    CountBelowCut(s, begin, begin, end, s[mid], comp);
  }

  // ---------------------------------------------------------------- try_sort

  lemma RecordedMeans<T>(states: seq<seq<T>>, s: seq<T>, begin: int, end: int, comp: (T, T) -> bool, iterations: nat,
                         ok: bool)
    requires 0 <= begin <= end <= |s| && Recorded(states, s, begin, end, comp, iterations, ok)
    ensures forall i :: 0 <= i < |states| ==> |states[i]| == |s|
    ensures (states != [] ==> states[0] == s) && Answer(states, begin, end, comp, iterations, ok)
    ensures !ok ==> |states| == iterations || EndsUnbalanced(states, begin, end, comp)
    ensures ok ==> !EndsUnbalanced(states, begin, end, comp)
  {
    assert Seen(0);
    if ok {
      TrueMeans(states, begin, end, comp, iterations);
    } else {
      FalseMeans(states, begin, end, comp, iterations);
    }
  }

  lemma StartCredit(n: nat) returns (credit: nat)
    requires n >= 1
    ensures Solvent(Chain(n, 0, 0, 0), n, Log2(n), false, credit) && credit == n * (73 * Log2(n) + 79)
  {
    SolventForAll(n);
    credit := n * (73 * Log2(n) + 79);
  }

  /** A short range is accepted, and so is an increasing one of any length; of the other sorted ones, those that are recognised. */
  lemma Accepted<T(!new)>(states: seq<seq<T>>, s: seq<T>, begin: int, end: int, comp: (T, T) -> bool, ok: bool)
    requires StrictWeakOrder(comp) && 0 <= begin <= end <= |s|
    requires if Refused(s, begin, end, comp) then !ok else Recorded(states, s, begin, end, comp, 3, ok)
    ensures Sorted(s, begin, end, comp) ==> (ok <==> !Refused(s, begin, end, comp) && Recognised(s, begin, end, comp, 3))
    ensures end - begin < 24 || Increasing(s, begin, end, comp) ==> ok
  {
    if !Refused(s, begin, end, comp) {
      if Sorted(s, begin, end, comp) { SortedRun(states, s, begin, end, comp, 3, ok); }
      if end - begin < 24 { assert Seen(0); }
    }
    if Increasing(s, begin, end, comp) {
      NoBrokenSamples(s, begin, end, comp);
      IncreasingIsRecognised(s, begin, end, comp, 3);
    }
  }

  /** The sampling and the loop behind it. */
  method TrySortImpl<T(!new)>(a: array<T>, begin: int, end: int, comp: (T, T) -> bool, branchless: bool, badAllowed: int,
                              ghost chain: Chain, ghost credit: nat)
    returns (ok: bool, ghost used: nat, ghost states: seq<seq<T>>)
    requires StrictWeakOrder(comp) && 0 <= begin <= end <= a.Length
    requires Solvent(chain, end - begin, badAllowed, false, credit)
    modifies a
    ensures Permuted(old(a[..]), a[..], begin, end)
    ensures ok ==> Sorted(a[..], begin, end, comp)
    ensures Refused(old(a[..]), begin, end, comp) ==> !ok && a[..] == old(a[..])
    ensures !Refused(old(a[..]), begin, end, comp) ==> Recorded(states, old(a[..]), begin, end, comp, 3, ok)
    ensures Sorted(old(a[..]), begin, end, comp)
            ==> (ok <==> !Refused(old(a[..]), begin, end, comp) && Recognised(old(a[..]), begin, end, comp, 3))
    ensures end - begin < 24 || Increasing(old(a[..]), begin, end, comp) ==> ok
    ensures used <= credit + (end - begin)
  {
    ghost var s := a[..];
    var refuse;
    refuse, used := LooksUnsorted(a, begin, end, comp);
    if refuse {
      Accepted([], s, begin, end, comp, false);
      return false, used, [];
    }
    ghost var more;
    ok, more, states := TrySortLoop(a, begin, end, comp, branchless, badAllowed, TRY_SORT_ITERATIONS, false, true, chain, credit);
    used := used + more;
    Accepted(states, s, begin, end, comp, ok);
  }

  /** pdqsort_try_sort and pdqsort_try_sort_branchless. True means sorted; false leaves a rearrangement, and the untouched
      input if the sampling refused it. `states` are the arrays at the splits of the unforced run, the first being the input;
      they decide the answer. A range sorted before is accepted exactly if its samples are and it is recognised. */
  method TrySort<T(!new)>(a: array<T>, begin: int, end: int, comp: (T, T) -> bool, branchless: bool)
    returns (ok: bool, ghost used: nat, ghost states: seq<seq<T>>)
    requires StrictWeakOrder(comp) && 0 <= begin <= end <= a.Length
    modifies a
    ensures Permuted(old(a[..]), a[..], begin, end)
    ensures ok ==> Sorted(a[..], begin, end, comp)
    ensures Refused(old(a[..]), begin, end, comp) ==> !ok && a[..] == old(a[..])
    ensures !Refused(old(a[..]), begin, end, comp) ==> Recorded(states, old(a[..]), begin, end, comp, 3, ok)
    ensures Sorted(old(a[..]), begin, end, comp)
            ==> (ok <==> !Refused(old(a[..]), begin, end, comp) && Recognised(old(a[..]), begin, end, comp, 3))
    ensures end - begin < 24 || Increasing(old(a[..]), begin, end, comp) ==> ok
    ensures used <= (end - begin) * (73 * Log2(end - begin) + 79) + (end - begin)
  {
    if begin == end {
      RecordedAtOnce(a[..], begin, end, comp, 3);
      Accepted([], a[..], begin, end, comp, true);
      return true, 0, [];
    }
    var log := ComputeLog2(end - begin);
    ghost var credit := StartCredit(end - begin);
    ok, used, states := TrySortImpl(a, begin, end, comp, branchless, log, Chain(end - begin, 0, 0, 0), credit);
  }
}
