/** pdqsort: one turn of its outer loop, and the loop with its recursion. */
module PdqSort {
  import opened Bits
  import opened PdqOrder
  import opened PdqAnswer
  import opened PdqDepth
  import opened PdqHeap
  import opened PdqInsertion
  import opened PdqPartition
  import opened PdqBranchless
  import opened Sums

  /** Halvings until nothing is left. */
  method ComputeLog2(n0: nat) returns (log: nat)
    ensures log == Log2(n0)
  {
    var n := n0;
    log := 0;
    while n / 2 != 0
      invariant log + Log2(n) == Log2(n0)
    {
      n := n / 2;
      log := log + 1;
    }
  }

  // ---------------------------------------------------------------- one level

  /** s[pos] separates the range: strictly greater than everything before it, not greater than what follows. */
  ghost predicate Around<T>(s: seq<T>, begin: int, pos: int, end: int, comp: (T, T) -> bool)
    requires 0 <= begin <= pos < end <= |s|
  {
    && (forall i :: begin <= i < pos ==> comp(s[i], s[pos]))
    && (forall i :: pos < i < end ==> !comp(s[i], s[pos]))
  }

  lemma AroundKept<T>(s: seq<T>, t: seq<T>, begin: int, pos: int, end: int, comp: (T, T) -> bool, x: int, y: int)
    requires 0 <= begin <= pos < end <= |s| && Around(s, begin, pos, end, comp)
    requires begin <= x <= y <= pos || pos < x <= y <= end
    requires Permuted(s, t, x, y)
    ensures Around(t, begin, pos, end, comp) && Permuted(s, t, begin, end)
  {
    PermutedWiden(s, t, x, y, begin, end);
    var p := s[pos];
    if y <= pos {
      PermutedForall(s, t, x, y, e => comp(e, p));
    } else {
      PermutedForall(s, t, x, y, e => !comp(e, p));
    }
  }

  method ShuffleSwap<T>(a: array<T>, i: int, j: int, ghost lo: int, ghost hi: int, ghost s0: seq<T>)
    requires 0 <= lo <= i < hi <= a.Length && lo <= j < hi
    requires |s0| == a.Length && Permuted(s0, a[..], lo, hi)
    modifies a
    ensures Permuted(s0, a[..], lo, hi)
  {
    SwapWithin(a, i, j, lo, hi, s0);
  }

  /** The pattern-breaking swaps in the left part. */
  method ShuffleLeft<T>(a: array<T>, begin: int, pos: int)
    requires 0 <= begin <= pos <= a.Length
    modifies a
    ensures Permuted(old(a[..]), a[..], begin, pos)
  {
    ghost var s := a[..];
    var size := pos - begin;
    if size >= INSERTION_SORT_THRESHOLD {
      ShuffleSwap(a, begin, begin + size / 4, begin, pos, s);
      ShuffleSwap(a, pos - 1, pos - size / 4, begin, pos, s);
      if size > NINTHER_THRESHOLD {
        ShuffleSwap(a, begin + 1, begin + (size / 4 + 1), begin, pos, s);
        ShuffleSwap(a, begin + 2, begin + (size / 4 + 2), begin, pos, s);
        ShuffleSwap(a, pos - 2, pos - (size / 4 + 1), begin, pos, s);
        ShuffleSwap(a, pos - 3, pos - (size / 4 + 2), begin, pos, s);
      }
    }
  }

  /** The pattern-breaking swaps in the right part. */
  method ShuffleRight<T>(a: array<T>, pos: int, end: int)
    requires 0 <= pos < end <= a.Length
    modifies a
    ensures Permuted(old(a[..]), a[..], pos + 1, end)
  {
    ghost var s := a[..];
    var size := end - (pos + 1);
    if size >= INSERTION_SORT_THRESHOLD {
      ShuffleSwap(a, pos + 1, pos + (1 + size / 4), pos + 1, end, s);
      ShuffleSwap(a, end - 1, end - size / 4, pos + 1, end, s);
      if size > NINTHER_THRESHOLD {
        ShuffleSwap(a, pos + 2, pos + (2 + size / 4), pos + 1, end, s);
        ShuffleSwap(a, pos + 3, pos + (3 + size / 4), pos + 1, end, s);
        ShuffleSwap(a, end - 2, end - (1 + size / 4), pos + 1, end, s);
        ShuffleSwap(a, end - 3, end - (2 + size / 4), pos + 1, end, s);
      }
    }
  }

  /** The sentinel that lets the inner loops run unguarded: unless the range is leftmost, the element in
      front of it is not above any element in it. */
  ghost predicate Sentinel<T>(s: seq<T>, begin: int, end: int, leftmost: bool, comp: (T, T) -> bool)
    requires 0 <= begin <= end <= |s|
  {
    !leftmost ==> begin > 0 && forall i :: begin <= i < end ==> Leq(comp, s[begin - 1], s[i])
  }

  lemma SentinelKept<T>(s: seq<T>, t: seq<T>, begin: int, end: int, leftmost: bool, comp: (T, T) -> bool)
    requires 0 <= begin <= end <= |s| && Sentinel(s, begin, end, leftmost, comp) && Permuted(s, t, begin, end)
    ensures Sentinel(t, begin, end, leftmost, comp)
  {
    if !leftmost {
      var e := s[begin - 1];
      PermutedForall(s, t, begin, end, x => Leq(comp, e, x));
    }
  }

  method SmallSort<T(!new)>(a: array<T>, begin: int, end: int, comp: (T, T) -> bool, leftmost: bool) returns (ghost used: nat)
    requires StrictWeakOrder(comp) && 0 <= begin <= end <= a.Length
    requires Sentinel(a[..], begin, end, leftmost, comp) && end - begin < INSERTION_SORT_THRESHOLD
    modifies a
    ensures Sorted(a[..], begin, end, comp) && Permuted(old(a[..]), a[..], begin, end)
    ensures used <= 24 * (end - begin)
  {
    MulMonotone(end - begin, end - begin, 24);
    MulByThreshold(end - begin);
    if leftmost {
      used := InsertionSort(a, begin, end, comp);
    } else {
      used := UnguardedInsertionSort(a, begin, end, comp);
    }
  }

  /** How a level ends: all elements up to pos equal the sentinel; the range is sorted; the sort gives up;
      or both sides of pos remain to be sorted. */
  datatype Outcome = EqualsSkipped | AllSorted | GaveUp | Split

  ghost predicate LevelDone<T>(s: seq<T>, t: seq<T>, begin: int, end: int, comp: (T, T) -> bool, leftmost: bool,
                               out: Outcome, pos: int)
    requires 0 <= begin <= end <= |s|
  {
    && Permuted(s, t, begin, end)
    && (out == AllSorted ==> Sorted(t, begin, end, comp))
    && (out == EqualsSkipped || out == Split ==> begin <= pos < end)
    && (out == Split ==> Around(t, begin, pos, end, comp))
    && (out == EqualsSkipped ==> !leftmost && 0 < begin && EqualPrefix(t, begin, pos, end, comp))
  }

  /** [begin, pos] is not above the element in front of begin, and everything after pos is above it. */
  ghost predicate EqualPrefix<T>(s: seq<T>, begin: int, pos: int, end: int, comp: (T, T) -> bool)
    requires 0 < begin <= pos < end <= |s|
  {
    && (forall i :: begin <= i <= pos ==> Leq(comp, s[i], s[begin - 1]))
    && (forall i :: pos < i < end ==> comp(s[pos], s[i]))
  }

  /** If the pivot is equivalent to the sentinel, partition_left splits off everything equivalent to both. */
  method SkipEquals<T(!new)>(a: array<T>, begin: int, end: int, comp: (T, T) -> bool) returns (pos: int, ghost used: nat)
    requires StrictWeakOrder(comp) && 0 < begin < end <= a.Length
    requires HasSentinels(a[..], begin, end, comp)
    requires Leq(comp, a[begin], a[begin - 1])
    modifies a
    ensures LevelDone(old(a[..]), a[..], begin, end, comp, false, EqualsSkipped, pos)
    ensures used <= end - begin + 1
  {
    ghost var i :| begin < i < end && Leq(comp, a[..][i], a[..][begin]);
    assert Leq(comp, a[i], a[begin]);
    pos, used := PartitionLeft(a, begin, end, comp);
    var e := a[begin - 1];
    forall k | begin <= k <= pos ensures Leq(comp, a[k], e) {
      if k < pos { LeqTransitive(comp, a[k], a[pos], e); }
    }
  }

  method Partition<T(!new)>(a: array<T>, begin: int, end: int, comp: (T, T) -> bool, branchless: bool)
    returns (pos: int, already: bool, ghost used: nat)
    requires 0 <= begin < end <= a.Length
    requires HasSentinels(a[..], begin, end, comp)
    modifies a
    ensures PartitionedRight(old(a[..]), a[..], begin, end, comp, pos, already)
    ensures used <= end - begin + 1
  {
    ghost var i :| begin < i < end && Leq(comp, a[..][begin], a[..][i]);
    assert Leq(comp, a[begin], a[i]);
    if branchless {
      pos, already, used := PartitionRightBranchless(a, begin, end, comp);
    } else {
      pos, already, used := PartitionRight(a, begin, end, comp);
    }
  }

  /** After a balanced partition of input that was already partitioned, insertion sort is tried on both sides. */
  method TryInsertion<T(!new)>(a: array<T>, begin: int, pos: int, end: int, comp: (T, T) -> bool)
    returns (out: Outcome, ghost used: nat)
    requires StrictWeakOrder(comp) && 0 <= begin <= pos < end <= a.Length
    requires Around(a[..], begin, pos, end, comp)
    modifies a
    ensures out == AllSorted || out == Split
    ensures out == AllSorted <==> FewInversions(old(a[..]), begin, pos, end, comp)
    ensures LevelDone(old(a[..]), a[..], begin, end, comp, true, out, pos)
    ensures used <= 2 * (end - begin) + 2 * PARTIAL_INSERTION_SORT_LIMIT
  {
    ghost var s := a[..];
    var ok;
    ghost var second;
    ok, used := PartialInsertionSort(a, begin, pos, comp);
    ghost var t := a[..];
    AroundKept(s, t, begin, pos, end, comp, begin, pos);
    InversionsAgree(s, t, pos + 1, end, comp);
    if !ok { return Split, used; }
    ok, second := PartialInsertionSort(a, pos + 1, end, comp);
    used := used + second;
    AroundKept(t, a[..], begin, pos, end, comp, pos + 1, end);
    PermutedTransitive(s, t, a[..], begin, end);
    if !ok { return Split, used; }
    assert Sorted(a[..], begin, pos, comp);
    SortedAround(a[..], begin, pos, end, comp);
    return AllSorted, used;
  }

  lemma SortedAround<T(!new)>(s: seq<T>, begin: int, pos: int, end: int, comp: (T, T) -> bool)
    requires StrictWeakOrder(comp) && 0 <= begin <= pos < end <= |s| && Around(s, begin, pos, end, comp)
    requires Sorted(s, begin, pos, comp) && Sorted(s, pos + 1, end, comp)
    ensures Sorted(s, begin, end, comp)
  {
    AroundBelow(s, begin, pos, end, comp);
    assert Sorted(s, pos, end, comp);
    SortedConcat(s, begin, pos, end, comp);
  }

  lemma AroundBelow<T(!new)>(s: seq<T>, begin: int, pos: int, end: int, comp: (T, T) -> bool)
    requires StrictWeakOrder(comp) && 0 <= begin <= pos < end <= |s| && Around(s, begin, pos, end, comp)
    ensures Below(s, begin, pos, end, comp) && Below(s, begin, pos + 1, end, comp)
  {
    forall i, j | begin <= i <= pos <= j < end ensures Leq(comp, s[i], s[j]) {
      if i < pos { LessLeq(comp, s[i], s[pos], s[j]); }
      if i < pos && pos < j { LessLeq(comp, s[i], s[j], s[j]); }
    }
  }

  method BreakPatterns<T(!new)>(a: array<T>, begin: int, pos: int, end: int, comp: (T, T) -> bool)
    requires 0 <= begin <= pos < end <= a.Length && Around(a[..], begin, pos, end, comp)
    modifies a
    ensures Permuted(old(a[..]), a[..], begin, end) && Around(a[..], begin, pos, end, comp)
  {
    ghost var s := a[..];
    ShuffleLeft(a, begin, pos);
    ghost var t := a[..];
    AroundKept(s, t, begin, pos, end, comp, begin, pos);
    ShuffleRight(a, pos, end);
    AroundKept(t, a[..], begin, pos, end, comp, pos + 1, end);
    PermutedTransitive(s, t, a[..], begin, end);
  }

  /** What follows a partition: a highly unbalanced one is paid for from the budget, and the last of those is followed by the
      heap sort; a balanced one that moved nothing gives insertion sort a try. `heap` counts the heap sort's comparisons. */
  method AfterPartition<T(!new)>(a: array<T>, begin: int, pos: int, end: int, comp: (T, T) -> bool, badAllowed: int,
                                 mayGiveUp: bool, already: bool)
    returns (out: Outcome, bad: int, unbalanced: bool, ghost used: nat, ghost heap: nat)
    requires StrictWeakOrder(comp) && 0 <= begin <= pos < end <= a.Length
    requires Around(a[..], begin, pos, end, comp)
    modifies a
    ensures out != EqualsSkipped && LevelDone(old(a[..]), a[..], begin, end, comp, true, out, pos)
    ensures out == GaveUp ==> mayGiveUp
    ensures mayGiveUp ==> (out == GaveUp <==> Unbalanced(begin, pos, end))
    ensures mayGiveUp ==> (out == AllSorted <==> !Unbalanced(begin, pos, end) && already
                                                 && FewInversions(old(a[..]), begin, pos, end, comp))
    ensures mayGiveUp && out == Split && !already ==> a[..] == old(a[..])
    ensures out == Split ==> SplitBudget(begin, pos, end, badAllowed, bad, unbalanced)
    ensures used <= 2 * (end - begin) + 2 * PARTIAL_INSERTION_SORT_LIMIT
    ensures heap <= 3 * Mul(end - begin, Log2(end - begin)) && (heap > 0 ==> out == AllSorted)
  {
    used, heap := 0, 0;
    var size := end - begin;
    bad := badAllowed;
    unbalanced := pos - begin < size / 8 || end - (pos + 1) < size / 8;
    if unbalanced {
      if mayGiveUp { return GaveUp, bad, unbalanced, used, heap; }
      bad := bad - 1;
      if bad == 0 {
        heap := HeapSort(a, begin, end, comp);
        return AllSorted, bad, unbalanced, used, heap;
      }
      BreakPatterns(a, begin, pos, end, comp);
      return Split, bad, unbalanced, used, heap;
    }
    if already {
      out, used := TryInsertion(a, begin, pos, end, comp);
      return out, bad, unbalanced, used, heap;
    }
    return Split, bad, unbalanced, used, heap;
  }

  /** The part of a level behind the choice of the pivot, s being the array before it. */
  method SplitLevel<T(!new)>(a: array<T>, begin: int, end: int, comp: (T, T) -> bool, branchless: bool, badAllowed: int,
                             mayGiveUp: bool, ghost s: seq<T>)
    returns (out: Outcome, pos: int, bad: int, unbalanced: bool, ghost used: nat, ghost heap: nat)
    requires StrictWeakOrder(comp) && 0 <= begin && begin + INSERTION_SORT_THRESHOLD <= end <= a.Length == |s|
    requires HasSentinels(a[..], begin, end, comp) && Permuted(s, a[..], begin, end) && Chosen(s, a[..], begin, end, comp)
    modifies a
    ensures out != EqualsSkipped && LevelDone(s, a[..], begin, end, comp, true, out, pos)
    ensures out == GaveUp ==> mayGiveUp
    ensures out == Split ==> SplitBudget(begin, pos, end, badAllowed, bad, unbalanced)
    ensures mayGiveUp ==> Decided(s, begin, end, comp, pos, out == GaveUp, out == AllSorted)
    ensures mayGiveUp && out == Split ==> SplitFrom(s, a[..], begin, pos, end, comp)
    ensures used <= 3 * (end - begin) + 2 * PARTIAL_INSERTION_SORT_LIMIT + 1
    ensures heap <= 3 * Mul(end - begin, Log2(end - begin)) && (heap > 0 ==> out == AllSorted)
  {
    ghost var t, more := a[..], 0;
    var already;
    pos, already, used := Partition(a, begin, end, comp, branchless);
    ghost var u := a[..];
    PermutedTransitive(s, t, u, begin, end);
    out, bad, unbalanced, more, heap := AfterPartition(a, begin, pos, end, comp, badAllowed, mayGiveUp, already);
    PermutedTransitive(s, u, a[..], begin, end);
    if mayGiveUp {
      LevelDecides(s, t, u, begin, end, comp, pos, already, out == GaveUp, out == AllSorted);
      if out == Split { LevelSplits(s, t, u, a[..], begin, pos, end, comp, already); }
    }
    used := used + more;
  }

  /** One turn of the outer loops up to the recursion, on a range of at least INSERTION_SORT_THRESHOLD
      elements. `mayGiveUp` is try_sort's unforced mode, which does not tolerate an unbalanced partition. */
  method Level<T(!new)>(a: array<T>, begin: int, end: int, comp: (T, T) -> bool, branchless: bool,
                        leftmost: bool, badAllowed: int, mayGiveUp: bool)
    returns (out: Outcome, pos: int, bad: int, unbalanced: bool, ghost used: nat)
    requires StrictWeakOrder(comp) && 0 <= begin && begin + INSERTION_SORT_THRESHOLD <= end <= a.Length
    requires Sentinel(a[..], begin, end, leftmost, comp)
    modifies a
    ensures LevelDone(old(a[..]), a[..], begin, end, comp, leftmost, out, pos)
    ensures out == GaveUp ==> mayGiveUp
    ensures out == Split ==> SplitBudget(begin, pos, end, badAllowed, bad, unbalanced)
    ensures leftmost && mayGiveUp ==> out != EqualsSkipped
                                      && Decided(old(a[..]), begin, end, comp, pos, out == GaveUp, out == AllSorted)
    ensures leftmost && mayGiveUp && out == Split ==> SplitFrom(old(a[..]), a[..], begin, pos, end, comp)
    ensures LevelUses(end - begin, out == AllSorted, used)
  {
    ghost var s, more, heap := a[..], 0, 0;
    used := ChoosePivot(a, begin, end, comp);
    used := used + if leftmost then 0 else 1;
    if !leftmost && !comp(a[begin - 1], a[begin]) {
      ghost var t := a[..];
      pos, more := SkipEquals(a, begin, end, comp);
      PermutedTransitive(s, t, a[..], begin, end);
      LevelWithHeap(end - begin, used + more, 0, false);
      return EqualsSkipped, pos, badAllowed, false, used + more;
    }
    out, pos, bad, unbalanced, more, heap := SplitLevel(a, begin, end, comp, branchless, badAllowed, mayGiveUp, s);
    LevelWithHeap(end - begin, used + more, heap, out == AllSorted);
    used := used + more + heap;
  }

  // ---------------------------------------------------------------- the loops

  /** The loop invariant of both sorts: [begin, b) is finished and nothing after it belongs before it. */
  ghost predicate Progress<T>(s0: seq<T>, s: seq<T>, begin: int, b: int, end: int, leftmost: bool, comp: (T, T) -> bool)
    requires 0 <= begin <= b <= end <= |s0|
  {
    && Permuted(s0, s, begin, end)
    && Sorted(s, begin, b, comp)
    && Below(s, begin, b, end, comp)
    && Sentinel(s, b, end, leftmost, comp)
  }

  lemma ProgressKept<T>(s0: seq<T>, s: seq<T>, t: seq<T>, begin: int, b: int, end: int, leftmost: bool, comp: (T, T) -> bool)
    requires 0 <= begin <= b <= end <= |s0| && Progress(s0, s, begin, b, end, leftmost, comp)
    requires Permuted(s, t, b, end)
    ensures Progress(s0, t, begin, b, end, leftmost, comp)
  {
    PermutedWiden(s, t, b, end, begin, end);
    PermutedTransitive(s0, s, t, begin, end);
    PermutedBelow(s, t, begin, b, end, b, end, comp);
    SentinelKept(s, t, b, end, leftmost, comp);
  }

  lemma ProgressSplit<T(!new)>(s0: seq<T>, s: seq<T>, begin: int, b: int, pos: int, end: int, leftmost: bool,
                               comp: (T, T) -> bool)
    requires StrictWeakOrder(comp) && 0 <= begin <= b <= pos < end <= |s0|
    requires Progress(s0, s, begin, b, end, leftmost, comp)
    requires Sorted(s, b, pos, comp) && Around(s, b, pos, end, comp)
    ensures Progress(s0, s, begin, pos + 1, end, false, comp)
  {
    AroundBelow(s, b, pos, end, comp);
    SortedConcat(s, begin, b, pos, comp);
  }

  lemma ProgressEquals<T(!new)>(s0: seq<T>, s: seq<T>, begin: int, b: int, pos: int, end: int, comp: (T, T) -> bool)
    requires StrictWeakOrder(comp) && 0 <= begin <= b <= pos < end <= |s0| && 0 < b
    requires Progress(s0, s, begin, b, end, false, comp) && EqualPrefix(s, b, pos, end, comp)
    ensures Progress(s0, s, begin, pos + 1, end, false, comp)
  {
    var e := s[b - 1];
    forall i, j | b <= i <= pos && b <= j < end ensures Leq(comp, s[i], s[j]) {
      LeqTransitive(comp, s[i], e, s[j]);
    }
    assert Sorted(s, b, pos + 1, comp);
    SortedConcat(s, begin, b, pos + 1, comp);
  }

  /** Everything in the range is strictly above the element in front of it. */
  ghost predicate Above<T>(s: seq<T>, begin: int, end: int, comp: (T, T) -> bool)
    requires 0 <= begin <= end <= |s|
  {
    begin > 0 && forall i :: begin <= i < end ==> comp(s[begin - 1], s[i])
  }

  /** Such a range is not split at its sentinel again. */
  lemma NotSkippedTwice<T>(s: seq<T>, t: seq<T>, begin: int, pos: int, end: int, comp: (T, T) -> bool)
    requires 0 < begin <= pos < end <= |s| && Permuted(s, t, begin, end) && EqualPrefix(t, begin, pos, end, comp)
    ensures !Above(s, begin, end, comp) && Above(t, pos + 1, end, comp)
  {
    var j := PermutedSource(s, t, begin, end, begin);
    assert !comp(s[begin - 1], s[j]);
  }

  /** The loop goes on behind the elements equal to the sentinel. */
  lemma AfterSkip<T(!new)>(s0: seq<T>, s: seq<T>, t: seq<T>, begin: int, b: int, pos: int, end: int, left: bool,
                           comp: (T, T) -> bool, c: Chain, bad: int, above: bool, saved: int, used: nat)
    requires StrictWeakOrder(comp) && 0 <= begin <= b <= end <= |s0| && |s| == |s0|
    requires Progress(s0, t, begin, b, end, left, comp) && LevelDone(s, t, b, end, comp, left, EqualsSkipped, pos)
    requires Solvent(c, end - b, bad, above, saved) && LevelUses(end - b, false, used)
    requires above ==> Above(s, b, end, comp)
    ensures Progress(s0, t, begin, pos + 1, end, false, comp) && Above(t, pos + 1, end, comp)
    ensures Solvent(c, end - (pos + 1), bad, true, saved - used)
  {
    ProgressEquals(s0, t, begin, b, pos, end, comp);
    NotSkippedTwice(s, t, b, pos, end, comp);
    SolventAfterSkip(c, end - b, end - (pos + 1), bad, saved, used);
  }

  /** The part before the pivot position has been sorted, and the loop goes on behind it. */
  lemma AfterLeft<T(!new)>(s0: seq<T>, t: seq<T>, u: seq<T>, begin: int, b: int, pos: int, end: int, left: bool,
                           comp: (T, T) -> bool)
    requires StrictWeakOrder(comp) && 0 <= begin <= b <= pos < end <= |s0| && |t| == |s0|
    requires Progress(s0, t, begin, b, end, left, comp) && Around(t, b, pos, end, comp)
    requires Permuted(t, u, b, pos)
    ensures Permuted(s0, u, begin, end)
    ensures Sorted(u, b, pos, comp) ==> Progress(s0, u, begin, pos + 1, end, false, comp)
  {
    AroundKept(t, u, b, pos, end, comp, b, pos);
    ProgressKept(s0, t, u, begin, b, end, left, comp);
    if Sorted(u, b, pos, comp) { ProgressSplit(s0, u, begin, b, pos, end, left, comp); }
  }

  /** The state of a loop that has come to b. As with SameBag, proofs that need the body assert `Running(0)`. */
  ghost predicate Going<T>(s0: seq<T>, s: seq<T>, begin: int, b: int, end: int, left: bool, comp: (T, T) -> bool,
                           c: Chain, bad: int, above: bool, saved: int)
    requires 0 <= begin <= b <= end <= |s0| == |s|
  {
    forall m: nat {:trigger Running(m)} :: Running(m) ==>
      && Progress(s0, s, begin, b, end, left, comp)
      && Solvent(c, end - b, bad, above, saved)
      && (above ==> Above(s, b, end, comp))
  }

  /** The state after a partition at pos that leaves both sides to be sorted. */
  ghost predicate Parting<T>(s0: seq<T>, s: seq<T>, begin: int, b: int, pos: int, end: int, left: bool, comp: (T, T) -> bool,
                             c: Chain, bad: int, bad': int, unbalanced: bool, above: bool, saved: int, used: nat)
    requires 0 <= begin <= b <= pos < end <= |s0| == |s|
  {
    forall m: nat {:trigger Running(m)} :: Running(m) ==>
      && Progress(s0, s, begin, b, end, left, comp) && Around(s, b, pos, end, comp)
      && end - b >= INSERTION_SORT_THRESHOLD && Solvent(c, end - b, bad, above, saved)
      && SplitBudget(b, pos, end, bad, bad', unbalanced) && LevelUses(end - b, false, used)
  }

  ghost predicate Running(m: nat) { true }

  lemma GoingStart<T>(s: seq<T>, begin: int, end: int, leftmost: bool, comp: (T, T) -> bool, c: Chain, bad: int, saved: int)
    requires 0 <= begin <= end <= |s| && Sentinel(s, begin, end, leftmost, comp) && Solvent(c, end - begin, bad, false, saved)
    ensures Going(s, s, begin, begin, end, leftmost, comp, c, bad, false, saved)
  {
  }

  lemma GoingMeans<T>(s0: seq<T>, s: seq<T>, begin: int, b: int, end: int, left: bool, comp: (T, T) -> bool,
                      c: Chain, bad: int, above: bool, saved: int)
    requires 0 <= begin <= b <= end <= |s0| == |s| && Going(s0, s, begin, b, end, left, comp, c, bad, above, saved)
    ensures Permuted(s0, s, begin, end) && 0 <= saved && c.depth <= 7 * Log2(c.n) + 5
  {
    assert Running(0);
    SolventDepth(c, end - b, bad, above, saved);
  }

  /** What the recursive call for the left side starts from, and what the loop has left for the right side. */
  lemma Recursing<T>(s0: seq<T>, s: seq<T>, begin: int, b: int, pos: int, end: int, left: bool, comp: (T, T) -> bool,
                     c: Chain, bad: int, bad': int, unbalanced: bool, above: bool, saved: int, used: nat)
    returns (inner: Chain, outer: Chain, first: nat)
    requires 0 <= begin <= b <= pos < end <= |s0| == |s|
    requires Parting(s0, s, begin, b, pos, end, left, comp, c, bad, bad', unbalanced, above, saved, used)
    ensures Sentinel(s, b, pos, left, comp) && Solvent(inner, pos - b, bad', false, first)
    ensures Solvent(outer, end - (pos + 1), bad', false, saved - used - first) && used + first <= saved
    ensures inner.n == outer.n == c.n && inner.depth == c.depth + 1 && outer.depth == c.depth
  {
    assert Running(0);
    inner, outer, first := SolventAfterSplit(c, b, pos, end, bad, bad', unbalanced, above, saved, used);
    SolventDepth(outer, end - (pos + 1), bad', false, saved - used - first);
  }

  /** The left side has been worked on, and the loop goes on behind the pivot if it is sorted. */
  lemma Resuming<T(!new)>(s0: seq<T>, s: seq<T>, t: seq<T>, begin: int, b: int, pos: int, end: int, left: bool,
                          comp: (T, T) -> bool,
                          c: Chain, bad: int, bad': int, unbalanced: bool, above: bool, saved: int, used: nat, outer: Chain, rest: int)
    requires StrictWeakOrder(comp) && 0 <= begin <= b <= pos < end <= |s0| == |s|
    requires Parting(s0, s, begin, b, pos, end, left, comp, c, bad, bad', unbalanced, above, saved, used)
    requires Permuted(s, t, b, pos) && Solvent(outer, end - (pos + 1), bad', false, rest)
    ensures Permuted(s0, t, begin, end)
    ensures Sorted(t, b, pos, comp) ==> Going(s0, t, begin, pos + 1, end, false, comp, outer, bad', false, rest)
  {
    assert Running(0);
    AfterLeft(s0, s, t, begin, b, pos, end, left, comp);
  }

  /** A turn of the loops up to the recursion: a short range is finished by insertion sort, any other gets its level. */
  method Turn<T(!new)>(a: array<T>, begin: int, b: int, end: int, comp: (T, T) -> bool, branchless: bool, left: bool,
                       bad: int,
                       mayGiveUp: bool, ghost s0: seq<T>, ghost c: Chain, ghost above: bool, ghost saved: int)
    returns (out: Outcome, pos: int, bad': int, unbalanced: bool, ghost used: nat)
    requires StrictWeakOrder(comp) && 0 <= begin <= b <= end <= a.Length && |s0| == a.Length
    requires Going(s0, a[..], begin, b, end, left, comp, c, bad, above, saved)
    modifies a
    ensures Permuted(s0, a[..], begin, end) && Permuted(old(a[..]), a[..], b, end) && used <= saved
    ensures out == AllSorted ==> Sorted(a[..], begin, end, comp)
    ensures out == GaveUp ==> mayGiveUp
    ensures out == EqualsSkipped ==>
              b <= pos < end && Going(s0, a[..], begin, pos + 1, end, false, comp, c, bad, true, saved - used)
    ensures out == Split ==>
              && b <= pos < end && Around(a[..], b, pos, end, comp)
              && Parting(s0, a[..], begin, b, pos, end, left, comp, c, bad, bad', unbalanced, above, saved, used)
    ensures end - b < INSERTION_SORT_THRESHOLD ==> out == AllSorted
    ensures end - b >= INSERTION_SORT_THRESHOLD && left && mayGiveUp ==>
              && out != EqualsSkipped && Decided(old(a[..]), b, end, comp, pos, out == GaveUp, out == AllSorted)
              && (out == Split ==> SplitFrom(old(a[..]), a[..], b, pos, end, comp))
  {
    ghost var s := a[..];
    assert Running(0);
    if end - b < INSERTION_SORT_THRESHOLD {
      used := SmallSort(a, b, end, comp, left);
      SolventForSmall(c, end - b, bad, above, saved);
      ProgressKept(s0, s, a[..], begin, b, end, left, comp);
      SortedConcat(a[..], begin, b, end, comp);
      return AllSorted, b, bad, false, used;
    }
    out, pos, bad', unbalanced, used := Level(a, b, end, comp, branchless, left, bad, mayGiveUp);
    ProgressKept(s0, s, a[..], begin, b, end, left, comp);
    SolventForSorted(c, end - b, bad, above, saved, out == AllSorted, used);
    if out == AllSorted {
      SortedConcat(a[..], begin, b, end, comp);
    } else if out == EqualsSkipped {
      AfterSkip(s0, s, a[..], begin, b, pos, end, left, comp, c, bad, above, saved, used);
    }
  }

  method PdqsortLoop<T(!new)>(a: array<T>, begin: int, end: int, comp: (T, T) -> bool, branchless: bool,
                              badAllowed: int, leftmost: bool, ghost chain: Chain, ghost credit: nat)
    returns (ghost deepest: nat, ghost used: nat)
    requires StrictWeakOrder(comp) && 0 <= begin <= end <= a.Length
    requires Sentinel(a[..], begin, end, leftmost, comp)
    requires Solvent(chain, end - begin, badAllowed, false, credit)
    modifies a
    ensures Sorted(a[..], begin, end, comp) && Permuted(old(a[..]), a[..], begin, end)
    ensures chain.depth <= deepest <= 7 * Log2(chain.n) + 5
    ensures used <= credit
    decreases end - begin
  {
    deepest, used := chain.depth, 0;
    SolventDepth(chain, end - begin, badAllowed, false, credit);
    GoingStart(a[..], begin, end, leftmost, comp, chain, badAllowed, credit);
    ghost var s0, c, above, saved: int := a[..], chain, false, credit;
    var b, bad, left := begin, badAllowed, leftmost;
    while true
      invariant begin <= b <= end && Going(s0, a[..], begin, b, end, left, comp, c, bad, above, saved)
      invariant c.n == chain.n && c.depth == chain.depth
      invariant chain.depth <= deepest <= 7 * Log2(chain.n) + 5
      invariant used + saved <= credit
      decreases end - b
    {
      var out, pos, bad', unbalanced;
      ghost var more;
      out, pos, bad', unbalanced, more := Turn(a, begin, b, end, comp, branchless, left, bad, false, s0, c, above, saved);
      used := used + more;
      if out == AllSorted { return; }
      if out == EqualsSkipped {
        saved := saved - more;
        b, left, above := pos + 1, false, true;
      } else {
        ghost var t := a[..];
        ghost var inner, outer, first := Recursing(s0, t, begin, b, pos, end, left, comp, c, bad, bad', unbalanced, above, saved, more);
        ghost var rest := saved - more - first;
        ghost var below, other := PdqsortLoop(a, b, pos, comp, branchless, bad', left, inner, first);
        used := used + other;
        deepest := if below > deepest then below else deepest;
        Resuming(s0, t, a[..], begin, b, pos, end, left, comp, c, bad, bad', unbalanced, above, saved, more, outer, rest);
        b, bad, left, above, c, saved := pos + 1, bad', false, false, outer, rest;
      }
    }
  }

  /** pdqsort and pdqsort_branchless; `depth` is the number of nested pdqsort_loop calls at the deepest point, `used` the
      number of comparisons. */
  method Pdqsort<T(!new)>(a: array<T>, begin: int, end: int, comp: (T, T) -> bool, branchless: bool)
    returns (ghost depth: nat, ghost used: nat)
    requires StrictWeakOrder(comp) && 0 <= begin <= end <= a.Length
    modifies a
    ensures Sorted(a[..], begin, end, comp) && Permuted(old(a[..]), a[..], begin, end)
    ensures depth <= 7 * Log2(end - begin) + 5
    ensures used <= (end - begin) * (73 * Log2(end - begin) + 79)
  {
    if begin == end { return 0, 0; }
    var log := ComputeLog2(end - begin);
    SolventForAll(end - begin);
    ghost var credit := (end - begin) * (73 * Log2(end - begin) + 79);
    depth, used := PdqsortLoop(a, begin, end, comp, branchless, log, true, Chain(end - begin, 0, 0, 0), credit);
  }
}
