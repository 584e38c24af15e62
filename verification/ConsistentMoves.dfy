/** How many hashes move when the number of buckets grows, and where the asterisk bits are too few for the smooth
    scheme. */
module ConsistentMoves {
  import opened Bits
  import opened Sums
  import opened ConsistentHashing
  import opened ConsistentFairness
  import opened ConsistentAsterisk
  import opened ConsistentSmooth
  import opened ConsistentShares
  import opened ConsistentEvenness

  // ---------------------------------------------------------------- the moved part is nearly the least possible

  ghost predicate EvenAt(n: nat, p: nat -> nat, total: nat, error: nat, i: nat) {
    Even(n, p(i), total, error)
  }

  lemma {:induction false} SumOfEven(m: nat, n: nat, p: nat -> nat, total: nat, error: nat)
    requires forall i: nat :: i < m ==> EvenAt(n, p, total, error, i)
    ensures Even(n, Sum(m, p), m * total, m * error)
  {
    if m > 0 {
      SumOfEven(m - 1, n, p, total, error);
      assert EvenAt(n, p, total, error, m - 1);
      EvenStep(n, Sum(m - 1, p), p(m - 1), m, total, error);
    }
  }

  lemma EvenStep(n: nat, s: nat, x: nat, m: nat, total: nat, error: nat)
    requires m > 0 && Even(n, s, (m - 1) * total, (m - 1) * error) && Even(n, x, total, error)
    ensures Even(n, s + x, m * total, m * error)
  {
    Distribute(n, s, x);
    MulStep(m, total);
    MulStep(m, error);
  }

  ghost predicate ShareIs(p: nat -> nat, width: nat, n: nat, r: nat)
    requires width >= 1 && 1 <= n <= Pow2(width - 1)
  {
    p(r) == Share(width, n, r)
  }

  /** The shares of all buckets, and of those that keep what they have when the number of buckets grows from n1. */
  lemma MakeShares(width: nat, n1: nat, n: nat) returns (p: nat -> nat)
    requires width >= 1 && 1 <= n1 <= n <= Pow2(width - 1)
    ensures forall r: nat :: r < n ==> ShareIs(p, width, n, r)
    ensures Sum(n, p) == Pow2(4 * width) && Moved(width, n1, n) + Sum(n1, p) == Pow2(4 * width)
  {
    p := Preimages(Pow2(4 * width), Buckets(width, n));
    SharesAddUp(width, n);
    MovedAndKept(width, n1, n);
  }

  lemma NewShares(p: nat -> nat, n1: nat, n2: nat, total: nat, moved: nat)
    requires n1 <= n2 && Sum(n2, p) == total && moved + Sum(n1, p) == total
    ensures moved == Sum(n2 - n1, Shifted(p, n1))
  {
    SumSplit(n1, n2 - n1, p);
  }

  /** For all n1 <= n2, the part of the hashes that moves is (n2 - n1) / n2, up to the error of the new buckets. */
  lemma NearlyLeastMoves(width: nat, k: nat, n1: nat, n2: nat)
    requires 1 <= k < width <= INT_BITS && InOctave(n2, k) && 1 <= n1 <= n2 <= Pow2(width - 1)
    ensures Even(n2, Moved(width, n1, n2), (n2 - n1) * Pow2(4 * width), (n2 - n1) * Error(width, k, n2))
  {
    var p := MakeShares(width, n1, n2);
    NewShares(p, n1, n2, Pow2(4 * width), Moved(width, n1, n2));
    AllEven(p, width, k, n2, Pow2(4 * width), Error(width, k, n2));
    NewSharesEven(p, n1, n2, Pow2(4 * width), Error(width, k, n2));
  }

  lemma AllEven(p: nat -> nat, width: nat, k: nat, n: nat, total: nat, error: nat)
    requires 1 <= k < width <= INT_BITS && InOctave(n, k) && n <= Pow2(width - 1)
    requires total == Pow2(4 * width) && error == Error(width, k, n)
    requires forall r: nat :: r < n ==> ShareIs(p, width, n, r)
    ensures forall r: nat :: r < n ==> EvenAt(n, p, total, error, r)
  {
    forall r: nat | r < n ensures EvenAt(n, p, total, error, r) {
      assert ShareIs(p, width, n, r);
      NearlyEven(width, k, n, r);
    }
  }

  lemma NewSharesEven(p: nat -> nat, n1: nat, n2: nat, total: nat, error: nat)
    requires n1 <= n2 && forall r: nat :: r < n2 ==> EvenAt(n2, p, total, error, r)
    ensures Even(n2, Sum(n2 - n1, Shifted(p, n1)), (n2 - n1) * total, (n2 - n1) * error)
  {
    var shares := Shifted(p, n1);
    forall i: nat | i < n2 - n1 ensures EvenAt(n2, shares, total, error, i) {
      assert EvenAt(n2, p, total, error, n1 + i);
    }
    SumOfEven(n2 - n1, n2, shares, total, error);
  }

  // ---------------------------------------------------------------- too few asterisk bits

  /** How many buckets the smooth scheme can reach at all. */
  ghost function Window(width: nat, k: nat): nat
    requires 1 <= k <= width <= INT_BITS
  {
    Pow2(AsteriskBits(width, k) - k)
  }

  /** There are buckets of the octave that the smooth scheme cannot reach, so the short scheme never answers. */
  ghost predicate Collapsed(width: nat, k: nat, n: nat)
    requires 1 <= k <= width <= INT_BITS
  {
    Pow2(k - 1) + Window(width, k) <= n
  }

  lemma SmoothedReach(s: nat, large: nat, k: nat, bits: nat)
    requires large > 0 && 1 <= k <= bits && s < Pow2(bits)
    ensures Smoothed(s, large, k) < Pow2(k - 1) + Pow2(bits - k)
  {
    SmoothedModulus(large);
    ShrBound(s % (large * (large + 1)), k, bits);
  }

  /** Every hash the large scheme cannot place lands in the window at the start of the octave. */
  lemma Concentrated(width: nat, x: nat, k: nat, n: nat)
    requires InOctave(n, k) && k < width <= INT_BITS && n <= Pow2(width - 1) && x < Pow2(4 * width)
    requires Collapsed(width, k, n) && PowerBucket(width, x, k) >= n
    ensures Pow2(k - 1) <= BucketOf(width, x, n) < Pow2(k - 1) + Window(width, k)
  {
    BucketForm(width, x, n, k);
    AsteriskBound(width, x, k);
    SmoothedReach(AsteriskOf(width, x, k), PowerBucket(width, x, k), k, AsteriskBits(width, k));
  }

  /** Nothing lands outside the window, */
  lemma NothingLands(bits: nat, k: nat, n: nat, r: nat, i: nat)
    requires 1 <= k <= bits && n > 0 && Pow2(k - 1) + Pow2(bits - k) <= n
    requires r < Pow2(k - 1) || r >= Pow2(k - 1) + Pow2(bits - k)
    ensures Landed(bits, k, n, r)(i) == 0
  {
    var f := Landing(k, n, r, n + i);
    forall s: nat | s < Pow2(bits) ensures f(s) == 0 {
      SmoothedReach(s, n + i, k, bits);
      assert f(s) == if Lands(k, n, r, n + i, s) then 1 else 0;
    }
    SumConstant(Pow2(bits), f, 0);
  }

  /** so every bucket outside the window gets a 2^k-th part of all hashes, however many buckets there are. */
  lemma ShareOutside(width: nat, k: nat, n: nat, r: nat)
    requires InOctave(n, k) && k < width <= INT_BITS && r < n <= Pow2(width - 1) && Collapsed(width, k, n)
    requires r < Pow2(k - 1) || r >= Pow2(k - 1) + Window(width, k)
    ensures Share(width, n, r) == Pow2(4 * width - k)
  {
    var none := NoneLanded(AsteriskBits(width, k), k, n, r);
    ShareOfNone(width, k, n, r, none);
  }

  lemma ShareOfNone(width: nat, k: nat, n: nat, r: nat, none: nat -> nat)
    requires InOctave(n, k) && k < width <= INT_BITS && r < n <= Pow2(width - 1)
    requires AllLanded(none, AsteriskBits(width, k), k, n, r) && forall i: nat :: none(i) == 0
    ensures Share(width, n, r) == Pow2(4 * width - k)
  {
    SumOfNone(none, Pow2(k) - n, Factor(width, k, r));
    ShareByLanded(width, k, n, r, none);
  }

  lemma SumOfNone(none: nat -> nat, m: nat, factor: nat)
    requires forall i: nat :: none(i) == 0
    ensures Mul(Sum(m, none), factor) == 0
  {
    SumConstant(m, none, 0);
  }

  lemma NoneLanded(bits: nat, k: nat, n: nat, r: nat) returns (none: nat -> nat)
    requires 1 <= k <= bits && n > 0 && Pow2(k - 1) + Pow2(bits - k) <= n
    requires r < Pow2(k - 1) || r >= Pow2(k - 1) + Pow2(bits - k)
    ensures forall i: nat :: none(i) == 0
    ensures AllLanded(none, bits, k, n, r)
  {
    none := Constant(0);
    forall i: nat ensures LandedAt(none, bits, k, n, r, i) { NothingLands(bits, k, n, r, i); }
  }

  ghost predicate FlatAt(p: nat -> nat, v: nat, i: nat) {
    p(i) == v
  }

  lemma SumFlat(p: nat -> nat, m: nat, v: nat)
    requires forall i: nat :: i < m ==> FlatAt(p, v, i)
    ensures Sum(m, p) == Mul(m, v)
  {
    forall i: nat | i < m ensures p(i) == v { assert FlatAt(p, v, i); }
    SumOfEqual(m, p, v);
  }

  lemma Flat(p: nat -> nat, width: nat, k: nat, n: nat, r: nat)
    requires InOctave(n, k) && k < width <= INT_BITS && r < n <= Pow2(width - 1) && Collapsed(width, k, n)
    requires ShareIs(p, width, n, r) && (r < Pow2(k - 1) || r >= Pow2(k - 1) + Window(width, k))
    ensures FlatAt(p, Pow2(4 * width - k), r)
  {
    ShareOutside(width, k, n, r);
  }

  /** The shares below, in and above the window. */
  lemma WindowParts(p: nat -> nat, h: nat, w: nat, n: nat, v: nat)
    requires h + w <= n
    requires forall r: nat :: r < n && (r < h || r >= h + w) ==> FlatAt(p, v, r)
    ensures Sum(h, p) == Mul(h, v) && Sum(n, p) == Mul(h, v) + Sum(w, Shifted(p, h)) + Mul(n - h - w, v)
  {
    SumFlat(p, h, v);
    SumSplit(h, w, p);
    SumSplit(h + w, n - h - w, p);
    var last := Shifted(p, h + w);
    forall i: nat | i < n - h - w ensures FlatAt(last, v, i) { assert FlatAt(p, v, h + w + i); }
    SumFlat(last, n - h - w, v);
  }

  lemma AllFlat(p: nat -> nat, width: nat, k: nat, n: nat, v: nat)
    requires InOctave(n, k) && k < width <= INT_BITS && n <= Pow2(width - 1) && Collapsed(width, k, n)
    requires v == Pow2(4 * width - k) && forall r: nat :: r < n ==> ShareIs(p, width, n, r)
    ensures forall r: nat :: r < n && (r < Pow2(k - 1) || r >= Pow2(k - 1) + Window(width, k)) ==> FlatAt(p, v, r)
  {
    forall r: nat | r < n && (r < Pow2(k - 1) || r >= Pow2(k - 1) + Window(width, k)) ensures FlatAt(p, v, r) {
      assert ShareIs(p, width, n, r);
      Flat(p, width, k, n, r);
    }
  }

  /** The buckets of the window together get, beside their 2^k-th parts, all hashes the large scheme cannot place; and
      growing from the border 2^(k - 1) to n moves half of all hashes, whatever n is. */
  lemma WindowGetsAll(width: nat, k: nat, n: nat) returns (p: nat -> nat)
    requires InOctave(n, k) && k < width <= INT_BITS && n <= Pow2(width - 1) && Collapsed(width, k, n)
    ensures forall r: nat :: r < n ==> ShareIs(p, width, n, r)
    ensures Sum(Window(width, k), Shifted(p, Pow2(k - 1))) == (Window(width, k) + (Pow2(k) - n)) * Pow2(4 * width - k)
    ensures 1 <= Pow2(k - 1) <= n && 2 * Moved(width, Pow2(k - 1), n) == Pow2(4 * width)
  {
    var h, w, total := Pow2(k - 1), Window(width, k), Pow2(4 * width);
    p := MakeShares(width, h, n);
    WindowOf(p, width, k, n, h, w, total, Moved(width, h, n));
  }

  lemma WindowOf(p: nat -> nat, width: nat, k: nat, n: nat, h: nat, w: nat, total: nat, moved: nat)
    requires InOctave(n, k) && k < width <= INT_BITS && n <= Pow2(width - 1) && Collapsed(width, k, n)
    requires h == Pow2(k - 1) && w == Window(width, k) && total == Pow2(4 * width)
    requires Sum(n, p) == total && moved + Sum(h, p) == total
    requires forall r: nat :: r < n ==> ShareIs(p, width, n, r)
    ensures Sum(w, Shifted(p, h)) == (w + (Pow2(k) - n)) * Pow2(4 * width - k) && 2 * moved == total
  {
    AllFlat(p, width, k, n, Pow2(4 * width - k));
    Pow2Add(k, 4 * width - k);
    WindowSums(p, h, w, n, Pow2(4 * width - k), total, moved);
  }

  lemma WindowSums(p: nat -> nat, h: nat, w: nat, n: nat, v: nat, total: nat, moved: nat)
    requires h + w <= n <= 2 * h && total == (2 * h) * v && Sum(n, p) == total && moved + Sum(h, p) == total
    requires forall r: nat :: r < n && (r < h || r >= h + w) ==> FlatAt(p, v, r)
    ensures Sum(w, Shifted(p, h)) == (w + (2 * h - n)) * v && 2 * moved == total
  {
    WindowParts(p, h, w, n, v);
    WindowAlgebra(h, w, n, v, Sum(w, Shifted(p, h)), total, moved);
  }

  lemma WindowAlgebra(h: nat, w: nat, n: nat, v: nat, s: nat, total: nat, moved: nat)
    requires h + w <= n <= 2 * h && total == (2 * h) * v
    requires total == Mul(h, v) + s + Mul(n - h - w, v) && moved + Mul(h, v) == total
    ensures s == (w + (2 * h - n)) * v && 2 * moved == total
  {
    MulIsProduct(h, v);
    MulIsProduct(n - h - w, v);
    assert (2 * h) * v == h * v + (w + (2 * h - n)) * v + (n - h - w) * v;
  }

  // ---------------------------------------------------------------- where that happens

  /** An octave has such numbers of buckets if and only if it has fewer than 2 * k asterisk bits: */
  lemma CollapsingOctaves(width: nat, k: nat)
    requires 1 <= k <= width <= INT_BITS
    ensures (exists n :: InOctave(n, k) && Collapsed(width, k, n)) <==> AsteriskBits(width, k) < 2 * k
  {
    var bits := AsteriskBits(width, k);
    if bits < 2 * k {
      Pow2Monotone(bits - k, k - 1);
      assert InOctave(Pow2(k), k) && Collapsed(width, k, Pow2(k));
    } else {
      Pow2Monotone(k, bits - k);
    }
  }

  /** with words of 16 bits above 2^13 buckets, with words of 32 bits above 2^24. */
  lemma CollapsingOverloads(k: nat)
    ensures 1 <= k <= 16 ==> (AsteriskBits(16, k) < 2 * k <==> k >= 14)
    ensures 1 <= k <= 32 ==> (AsteriskBits(32, k) < 2 * k <==> k >= 25)
  {
    AsteriskBitsOfOverloads(k);
  }

  /** For example, with 16-bit words and 16448 or more buckets 64 of them get all hashes that cannot be placed. */
  lemma CollapsedExample(n: nat)
    requires 16448 <= n <= 32768
    ensures InOctave(n, 15) && Collapsed(16, 15, n) && Window(16, 15) == 64
  {
  }
}
