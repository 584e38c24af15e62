/** The bad-partition budget of pdqsort: recursion depth and comparisons are bounded on every chain of nested ranges. */
module PdqDepth {
  import opened Bits
  import opened PdqHeap
  import opened PdqPartition
  import opened Sums

  ghost function Pow(b: nat, e: nat): nat {
    if e == 0 then 1 else b * Pow(b, e - 1)
  }

  lemma {:induction false} Log2Bound(n: nat)
    requires n >= 1
    ensures Pow(2, Log2(n)) <= n < Pow(2, Log2(n) + 1)
  {
    if n >= 2 { Log2Bound(n / 2); }
  }

  /** The path from the outermost range, of size n, to the current one: how many partitions on it were
      balanced, how many highly unbalanced, and how many were left by a recursive call. */
  datatype Chain = Chain(n: nat, balanced: nat, unbalanced: nat, depth: nat)

  ghost predicate OnChain(c: Chain, size: int, badAllowed: int) {
    && 0 <= size <= c.n && c.n >= 1
    && size * Pow(8, c.balanced) <= c.n * Pow(7, c.balanced)
    && Pow(8, c.balanced) <= c.n * Pow(7, c.balanced)
    && c.unbalanced + badAllowed == Log2(c.n)
    && 0 <= badAllowed
    && (size >= INSERTION_SORT_THRESHOLD ==> badAllowed >= 1)
    && c.depth <= c.balanced + c.unbalanced
  }

  lemma ChainStart(n: nat)
    requires n >= 1
    ensures OnChain(Chain(n, 0, 0, 0), n, Log2(n))
  {
    if n >= 2 { assert Log2(n) >= 1; }
  }

  /** Shrinking without a partition of its own: the partition_left case. */
  lemma ChainShrink(c: Chain, size: int, badAllowed: int, child: int)
    requires OnChain(c, size, badAllowed) && 0 <= child <= size
    ensures OnChain(c, child, badAllowed)
  {
    MulLe(child, size, Pow(8, c.balanced));
  }

  lemma ChainUnbalanced(c: Chain, size: int, badAllowed: int, child: int, recursive: bool)
    requires OnChain(c, size, badAllowed) && 0 <= child <= size && badAllowed > 1
    ensures OnChain(c.(unbalanced := c.unbalanced + 1, depth := c.depth + if recursive then 1 else 0), child, badAllowed - 1)
  {
    MulLe(child, size, Pow(8, c.balanced));
  }

  lemma ChainBalanced(c: Chain, size: int, badAllowed: int, child: int, other: int, recursive: bool)
    requires OnChain(c, size, badAllowed) && size >= INSERTION_SORT_THRESHOLD
    requires child + other + 1 == size && child >= size / 8 && other >= size / 8
    ensures OnChain(c.(balanced := c.balanced + 1, depth := c.depth + if recursive then 1 else 0), child, badAllowed)
  {
    BalancedArithmetic(c.n, size, child, Pow(8, c.balanced), Pow(7, c.balanced));
  }

  lemma BalancedArithmetic(n: nat, size: nat, child: nat, p8: nat, p7: nat)
    requires size * p8 <= n * p7 && 8 * child <= 7 * size && child >= 1
    ensures child * (8 * p8) <= n * (7 * p7) && 8 * p8 <= n * (7 * p7)
  {
    MulLe(8 * child, 7 * size, p8);
    assert child * (8 * p8) == 8 * child * p8;
    assert 7 * size * p8 == 7 * (size * p8);
    assert n * (7 * p7) == 7 * (n * p7);
    MulLe(1, child, 8 * p8);
  }

  lemma {:induction false} PowAdd(b: nat, x: nat, y: nat)
    ensures Pow(b, x + y) == Pow(b, x) * Pow(b, y)
  {
    if x > 0 {
      PowAdd(b, x - 1, y);
      MulAssociative(b, Pow(b, x - 1), Pow(b, y));
    }
  }

  lemma SixLevelsStep(p2: nat, p7: nat, p8: nat)
    requires p2 * p7 <= p8
    ensures (2 * p2) * (117649 * p7) <= 262144 * p8
  {
    assert (2 * p2) * (117649 * p7) == 235298 * (p2 * p7);
  }

  /** Six balanced levels more than halve a range. */
  lemma {:induction false} SixLevelsHalve(m: nat)
    ensures Pow(2, m) * Pow(7, 6 * m) <= Pow(8, 6 * m)
  {
    if m > 0 {
      SixLevelsHalve(m - 1);
      PowAdd(7, 6, 6 * (m - 1));
      PowAdd(8, 6, 6 * (m - 1));
      assert Pow(7, 6) == 117649 && Pow(8, 6) == 262144 by {
        assert Pow(7, 3) == 343 && Pow(8, 3) == 512;
        PowAdd(7, 3, 3);
        PowAdd(8, 3, 3);
      }
      SixLevelsStep(Pow(2, m - 1), Pow(7, 6 * (m - 1)), Pow(8, 6 * (m - 1)));
    }
  }

  lemma {:induction false} PowMonotone(b: nat, x: nat, y: nat)
    requires b >= 1 && x <= y
    ensures 1 <= Pow(b, x) <= Pow(b, y)
  {
    if x < y { PowMonotone(b, x, y - 1); } else if x > 0 { PowMonotone(b, x - 1, x - 1); }
  }

  lemma {:induction false} EightSevenths(x: nat)
    ensures Pow(7, x) <= Pow(8, x)
  {
    if x > 0 { EightSevenths(x - 1); }
  }

  /** Levels a chain can still grow by. */
  ghost function LevelsLeft(c: Chain): int {
    7 * Log2(c.n) + 5 - c.balanced - c.unbalanced
  }

  /** Recursion depth is logarithmic, whatever the input: every range pdqsort ever works on lies on a chain
      with fewer than log2(n) unbalanced partitions above it and at most 6 log2(n) + 5 balanced ones. */
  lemma DepthIsLogarithmic(c: Chain, size: int, badAllowed: int)
    requires OnChain(c, size, badAllowed)
    ensures size >= INSERTION_SORT_THRESHOLD ==> c.unbalanced < Log2(c.n)
    ensures c.balanced <= 6 * Log2(c.n) + 5
    ensures LevelsLeft(c) >= 0
    ensures c.depth <= 7 * Log2(c.n) + 5
  {
    var k := Log2(c.n) + 1;
    if c.balanced >= 6 * k {
      var x := c.balanced - 6 * k;
      Log2Bound(c.n);
      SixLevelsHalve(k);
      EightSevenths(x);
      PowAdd(7, 6 * k, x);
      PowAdd(8, 6 * k, x);
      PowMonotone(7, 0, c.balanced);
      Outgrown(c.n, Pow(2, k), Pow(7, 6 * k), Pow(8, 6 * k), Pow(7, x), Pow(8, x));
    }
  }

  lemma Outgrown(n: nat, p2: nat, p7: nat, p8: nat, q7: nat, q8: nat)
    requires n < p2 && p2 * p7 <= p8 && q7 <= q8 && p7 * q7 >= 1
    ensures n * (p7 * q7) < p8 * q8
  {
    var m := p7 * q7;
    MulLe(n + 1, p2, m);
    assert (n + 1) * m == n * m + m;
    assert p2 * m == (p2 * p7) * q7;
    MulLe(p2 * p7, p8, q7);
    assert p8 * q7 == q7 * p8 && p8 * q8 == q8 * p8;
    MulLe(q7, q8, p8);
  }

  /** A partition at pos is paid for from the budget unless at least an eighth of the range is on either side. */
  ghost predicate SplitBudget(begin: int, pos: int, end: int, bad: int, bad': int, unbalanced: bool) {
    && (unbalanced ==> bad' == bad - 1 != 0)
    && (!unbalanced ==> bad' == bad && pos - begin >= (end - begin) / 8 && end - (pos + 1) >= (end - begin) / 8)
  }

  /** The chains of the two ranges a partition leaves: the recursive call and the rest of the loop. */
  lemma Descend(c: Chain, b: int, pos: int, end: int, bad: int, bad': int, unbalanced: bool) returns (inner: Chain,
                outer: Chain)
    requires b <= pos < end && end - b >= INSERTION_SORT_THRESHOLD && OnChain(c, end - b, bad)
    requires SplitBudget(b, pos, end, bad, bad', unbalanced)
    ensures OnChain(inner, pos - b, bad') && OnChain(outer, end - (pos + 1), bad')
    ensures inner.n == outer.n == c.n && inner.depth == c.depth + 1 && outer.depth == c.depth
    ensures LevelsLeft(inner) == LevelsLeft(outer) == LevelsLeft(c) - 1
  {
    if unbalanced {
      ChainUnbalanced(c, end - b, bad, pos - b, true);
      ChainUnbalanced(c, end - b, bad, end - (pos + 1), false);
      inner := c.(unbalanced := c.unbalanced + 1, depth := c.depth + 1);
      outer := c.(unbalanced := c.unbalanced + 1);
    } else {
      ChainBalanced(c, end - b, bad, pos - b, end - (pos + 1), true);
      ChainBalanced(c, end - b, bad, end - (pos + 1), pos - b, false);
      inner := c.(balanced := c.balanced + 1, depth := c.depth + 1);
      outer := c.(balanced := c.balanced + 1);
    }
  }

  // ---------------------------------------------------------------- comparisons

  lemma {:induction false} MulAdd(x: nat, y: nat, z: nat)
    ensures Mul(x, y + z) == Mul(x, y) + Mul(x, z)
  {
    if x > 0 { MulAdd(x - 1, y, z); }
  }

  lemma {:induction false} MulMonotone(x: nat, y: nat, z: nat)
    requires y <= z
    ensures Mul(x, y) <= Mul(x, z)
  {
    if x > 0 { MulMonotone(x - 1, y, z); }
  }

  lemma {:induction false} MulByFive(x: nat)
    ensures Mul(x, 5) == 5 * x
  {
    if x > 0 { MulByFive(x - 1); }
  }

  lemma {:induction false} MulByThreshold(x: nat)
    ensures Mul(x, 24) == 24 * x
  {
    if x > 0 { MulByThreshold(x - 1); }
  }

  /** Comparisons for each element of a range on the chain. Every level costs five and may be preceded by one that only
      splits off the elements equal to the sentinel, unless the whole range is known to be above it. */
  ghost function Rate(c: Chain, above: bool): nat
    requires LevelsLeft(c) >= 0
  {
    10 * LevelsLeft(c) + 3 * Log2(c.n) + 24 + if above then 0 else 5
  }

  /** A range of this size may be met on the chain with this budget left, and `credit` comparisons are enough to sort it.
      As with SameBag, proofs that need the body assert `Open(0)`. */
  ghost predicate Solvent(c: Chain, size: int, bad: int, above: bool, credit: int) {
    forall m: nat {:trigger Open(m)} :: Open(m) ==>
      OnChain(c, size, bad) && LevelsLeft(c) >= 0 && Mul(size, Rate(c, above)) <= credit
  }

  /** What one level may use: five comparisons for each element, and those of the heap sort if that ends it. */
  ghost predicate LevelUses(size: int, sorted: bool, used: nat) {
    forall m: nat {:trigger Open(m)} :: Open(m) ==>
      0 <= size && used <= 5 * size + if sorted then 3 * Mul(size, Log2(size)) else 0
  }

  ghost predicate Open(m: nat) { true }

  lemma LevelWithHeap(size: nat, used: nat, heap: nat, sorted: bool)
    requires used <= 5 * size && heap <= 3 * Mul(size, Log2(size)) && (heap > 0 ==> sorted)
    ensures LevelUses(size, sorted, used + heap)
  {
  }

  lemma SolventForAll(n: nat)
    requires n >= 1
    ensures Solvent(Chain(n, 0, 0, 0), n, Log2(n), false, n * (73 * Log2(n) + 79))
  {
    ChainStart(n);
    MulIsProduct(n, 73 * Log2(n) + 79);
  }

  lemma SolventDepth(c: Chain, size: int, bad: int, above: bool, credit: int)
    requires Solvent(c, size, bad, above, credit)
    ensures c.depth <= 7 * Log2(c.n) + 5 && 0 <= credit
  {
    assert Open(0);
    DepthIsLogarithmic(c, size, bad);
  }

  /** Insertion sort of a short range. */
  lemma SolventForSmall(c: Chain, size: int, bad: int, above: bool, credit: int)
    requires Solvent(c, size, bad, above, credit)
    ensures 24 * size <= credit
  {
    assert Open(0);
    MulMonotone(size, 24, Rate(c, above));
    MulByThreshold(size);
  }

  lemma SortedRate(size: nat, log: nat, rate: nat)
    requires 3 * log + 5 <= rate
    ensures 5 * size + 3 * Mul(size, log) <= Mul(size, rate)
  {
    MulAdd(size, log, log);
    MulAdd(size, 2 * log, log);
    MulAdd(size, 3 * log, 5);
    MulByFive(size);
    MulMonotone(size, 3 * log + 5, rate);
  }

  /** A level that leaves nothing to do, be it by the heap sort. */
  lemma SolventForSorted(c: Chain, size: int, bad: int, above: bool, credit: int, sorted: bool, used: nat)
    requires Solvent(c, size, bad, above, credit) && LevelUses(size, sorted, used)
    ensures used <= credit
  {
    assert Open(0);
    Log2Monotone(size, c.n);
    SortedRate(size, Log2(size), Rate(c, above));
  }

  lemma SkipRate(size: nat, rest: nat, rate: nat)
    requires rest <= size
    ensures 5 * size + Mul(rest, rate) <= Mul(size, rate + 5)
  {
    MulAdd(size, rate, 5);
    MulByFive(size);
    MulDistributes(rest, size - rest, rate);
  }

  /** Splitting off the elements equal to the sentinel leaves a range above the new sentinel. */
  lemma SolventAfterSkip(c: Chain, size: int, rest: int, bad: int, credit: int, used: nat)
    requires Solvent(c, size, bad, false, credit) && 0 <= rest <= size && LevelUses(size, false, used)
    ensures Solvent(c, rest, bad, true, credit - used)
  {
    assert Open(0);
    ChainShrink(c, size, bad, rest);
    SkipRate(size, rest, Rate(c, true));
  }

  lemma SplitRate(size: nat, left: nat, right: nat, low: nat, rate: nat)
    requires left + right <= size && low + 5 <= rate
    ensures 5 * size + Mul(left, low) + Mul(right, low) <= Mul(size, rate)
  {
    SkipRate(size, left + right, low);
    MulDistributes(left, right, low);
    MulMonotone(size, low + 5, rate);
  }

  lemma SolventChildren(c: Chain, inner: Chain, outer: Chain, size: nat, left: nat, right: nat, bad: int,
                        above: bool, credit: int, used: nat)
    returns (first: nat)
    requires OnChain(inner, left, bad) && OnChain(outer, right, bad) && left + right <= size && inner.n == outer.n == c.n
    requires 0 <= LevelsLeft(inner) == LevelsLeft(outer) == LevelsLeft(c) - 1
    requires Mul(size, Rate(c, above)) <= credit && used <= 5 * size
    ensures Solvent(inner, left, bad, false, first) && Solvent(outer, right, bad, false, credit - used - first)
  {
    var low := Rate(inner, false);
    SplitRate(size, left, right, low, Rate(c, above));
    first := Mul(left, low);
  }

  /** A partition leaves two ranges with one level less: the recursive call's and the rest of the loop's. */
  lemma SolventAfterSplit(c: Chain, b: int, pos: int, end: int, bad: int, bad': int, unbalanced: bool, above: bool,
                          credit: int, used: nat)
    returns (inner: Chain, outer: Chain, first: nat)
    requires b <= pos < end && end - b >= INSERTION_SORT_THRESHOLD && SplitBudget(b, pos, end, bad, bad', unbalanced)
    requires Solvent(c, end - b, bad, above, credit) && LevelUses(end - b, false, used)
    ensures inner.n == outer.n == c.n && inner.depth == c.depth + 1 && outer.depth == c.depth
    ensures Solvent(inner, pos - b, bad', false, first)
    ensures Solvent(outer, end - (pos + 1), bad', false, credit - used - first)
  {
    assert Open(0);
    inner, outer := Descend(c, b, pos, end, bad, bad', unbalanced);
    DepthIsLogarithmic(inner, pos - b, bad');
    first := SolventChildren(c, inner, outer, end - b, pos - b, end - (pos + 1), bad', above, credit, used);
  }
}
