/** Finite sums of functions: splitting them into blocks, periods and factors. */
module Sums {
  import opened Bits

  ghost function Sum(n: nat, f: nat -> nat): nat {
    if n == 0 then 0 else Sum(n - 1, f) + f(n - 1)
  }

  ghost function Indicator(p: bool): nat {
    if p then 1 else 0
  }

  ghost function Shifted(f: nat -> nat, base: nat): nat -> nat {
    (i: nat) => f(base + i)
  }

  lemma MulStep(q: nat, p: nat)
    requires q > 0
    ensures q * p == (q - 1) * p + p
  {
  }

  lemma {:induction false} SumEqual(n: nat, f: nat -> nat, g: nat -> nat)
    requires forall i: nat :: i < n ==> f(i) == g(i)
    ensures Sum(n, f) == Sum(n, g)
  {
    if n > 0 { SumEqual(n - 1, f, g); }
  }

  lemma {:induction false} SumConstant(n: nat, f: nat -> nat, v: nat)
    requires forall i: nat :: i < n ==> f(i) == v
    ensures Sum(n, f) == n * v
  {
    if n > 0 {
      SumConstant(n - 1, f, v);
      MulStep(n, v);
    }
  }

  lemma {:induction false} SumScaled(n: nat, f: nat -> nat, g: nat -> nat, s: nat)
    requires forall i: nat :: i < n ==> f(i) == s * g(i)
    ensures Sum(n, f) == s * Sum(n, g)
  {
    if n > 0 {
      SumScaled(n - 1, f, g, s);
      assert s * Sum(n - 1, g) + s * g(n - 1) == s * (Sum(n - 1, g) + g(n - 1));
    }
  }

  lemma {:induction false} SumAdd(n: nat, f: nat -> nat, g: nat -> nat, h: nat -> nat)
    requires forall i: nat :: i < n ==> f(i) == g(i) + h(i)
    ensures Sum(n, f) == Sum(n, g) + Sum(n, h)
  {
    if n > 0 { SumAdd(n - 1, f, g, h); }
  }

  lemma {:induction false} SumSplit(m: nat, n: nat, f: nat -> nat)
    ensures Sum(m + n, f) == Sum(m, f) + Sum(n, Shifted(f, m))
  {
    if n > 0 { SumSplit(m, n - 1, f); }
  }

  ghost predicate Follows(start: nat -> nat, p: nat, hi: nat) {
    start(hi + 1) == start(hi) + p
  }

  ghost predicate BlockSum(f: nat -> nat, start: nat -> nat, p: nat, hi: nat, value: nat) {
    Sum(p, Shifted(f, start(hi))) == value
  }

  /** A sum in q blocks of p terms, the block hi starting at start(hi). */
  lemma {:induction false} SumBlocks(q: nat, p: nat, start: nat -> nat, f: nat -> nat, g: nat -> nat)
    requires start(0) == 0 && forall hi: nat :: hi < q ==> Follows(start, p, hi)
    requires forall hi: nat :: hi < q ==> BlockSum(f, start, p, hi, g(hi))
    ensures Sum(start(q), f) == Sum(q, g)
    decreases q
  {
    if q > 0 {
      SumBlocks(q - 1, p, start, f, g);
      assert Follows(start, p, q - 1) && BlockSum(f, start, p, q - 1, g(q - 1));
      SumSplit(start(q - 1), p, f);
    }
  }

  ghost function Times(p: nat): nat -> nat {
    (hi: nat) => hi * p
  }

  lemma TimesSteps(p: nat)
    ensures Times(p)(0) == 0 && forall hi: nat :: Follows(Times(p), p, hi)
  {
    forall hi: nat ensures Follows(Times(p), p, hi) { MulStep(hi + 1, p); }
  }

  lemma BlockResidue(hi: nat, p: nat, lo: nat)
    requires lo < p
    ensures (hi * p + lo) % p == lo && (hi * p + lo) / p == hi
  {
    DivModUnique(hi * p + lo, p, hi, lo);
  }

  ghost function Constant(v: nat): nat -> nat {
    (i: nat) => v
  }

  /** A sum over q periods of length p. */
  lemma SumPeriodic(n: nat, q: nat, p: nat, f: nat -> nat, h: nat -> nat)
    requires n == q * p && p > 0 && forall i: nat :: i < n ==> f(i) == h(i % p)
    ensures Sum(n, f) == q * Sum(p, h)
  {
    forall hi: nat | hi < q ensures BlockSum(f, Times(p), p, hi, Constant(Sum(p, h))(hi)) {
      MulLe(hi + 1, q, p);
      PeriodBlock(n, hi, hi * p, p, f, h);
    }
    TimesSteps(p);
    SumBlocks(q, p, Times(p), f, Constant(Sum(p, h)));
    SumConstant(q, Constant(Sum(p, h)), Sum(p, h));
  }

  lemma PeriodBlock(n: nat, hi: nat, base: nat, p: nat, f: nat -> nat, h: nat -> nat)
    requires base == hi * p && base + p <= n && p > 0 && forall i: nat :: i < n ==> f(i) == h(i % p)
    ensures Sum(p, Shifted(f, base)) == Sum(p, h)
  {
    forall lo: nat | lo < p ensures Shifted(f, base)(lo) == h(lo) { BlockResidue(hi, p, lo); }
    SumEqual(p, Shifted(f, base), h);
  }

  /** A sum that is v on [lo, hi) and zero elsewhere. */
  lemma {:induction false} SumInterval(n: nat, f: nat -> nat, lo: nat, hi: nat, v: nat)
    requires lo <= hi <= n
    requires forall i: nat :: i < n ==> f(i) == if lo <= i < hi then v else 0
    ensures Sum(n, f) == (hi - lo) * v
  {
    if n == 0 {
    } else if n > hi {
      SumInterval(n - 1, f, lo, hi, v);
    } else if lo < hi {
      SumInterval(n - 1, f, lo, hi - 1, v);
      MulStep(hi - lo, v);
    } else {
      SumConstant(n, f, 0);
    }
  }

  ghost function Equals(v: nat): nat -> nat {
    (i: nat) => if i == v then 1 else 0
  }

  lemma OneEqual(m: nat, v: nat)
    requires v < m
    ensures Sum(m, Equals(v)) == 1
  {
    forall i: nat | i < m ensures Equals(v)(i) == if v <= i < v + 1 then 1 else 0 {}
    SumInterval(m, Equals(v), v, v + 1, 1);
  }

  /** Among n = q * m consecutive numbers, q have residue v modulo m. */
  lemma SumResidue(n: nat, q: nat, m: nat, v: nat, f: nat -> nat)
    requires n == q * m && v < m && forall i: nat :: i < n ==> f(i) == Equals(v)(i % m)
    ensures Sum(n, f) == q
  {
    OneEqual(m, v);
    SumPeriodic(n, q, m, f, Equals(v));
  }

  ghost function Repeated(p: nat, h: nat -> nat): nat -> nat {
    (b: nat) => p * h(b)
  }

  /** A sum whose terms are the same within each of q blocks of length p. */
  lemma SumOfQuotients(n: nat, q: nat, p: nat, f: nat -> nat, h: nat -> nat)
    requires n == q * p && p > 0 && forall i: nat :: i < n ==> f(i) == h(i / p)
    ensures Sum(n, f) == p * Sum(q, h)
  {
    forall hi: nat | hi < q ensures BlockSum(f, Times(p), p, hi, Repeated(p, h)(hi)) {
      MulLe(hi + 1, q, p);
      ConstantBlock(n, hi, hi * p, p, f, h);
    }
    TimesSteps(p);
    SumBlocks(q, p, Times(p), f, Repeated(p, h));
    SumScaled(q, Repeated(p, h), h, p);
  }

  lemma ConstantBlock(n: nat, hi: nat, base: nat, p: nat, f: nat -> nat, h: nat -> nat)
    requires base == hi * p && base + p <= n && p > 0 && forall i: nat :: i < n ==> f(i) == h(i / p)
    ensures Sum(p, Shifted(f, base)) == p * h(hi)
  {
    forall lo: nat | lo < p ensures Shifted(f, base)(lo) == h(hi) { BlockResidue(hi, p, lo); }
    SumConstant(p, Shifted(f, base), h(hi));
  }

  // ---------------------------------------------------------------- indices made of a high and a low part

  /** Multiplication by repeated addition. */
  ghost function Mul(x: nat, y: nat): nat {
    if x == 0 then 0 else y + Mul(x - 1, y)
  }

  lemma {:induction false} MulIsProduct(x: nat, y: nat)
    ensures Mul(x, y) == x * y
  {
    if x > 0 {
      MulIsProduct(x - 1, y);
      MulStep(x, y);
    }
  }

  lemma {:induction false} MulDistributes(x: nat, y: nat, v: nat)
    ensures Mul(x + y, v) == Mul(x, v) + Mul(y, v)
  {
    if x > 0 { MulDistributes(x - 1, y, v); }
  }

  lemma MulSymmetric(x: nat, y: nat)
    ensures Mul(x, y) == Mul(y, x)
  {
    MulIsProduct(x, y);
    MulIsProduct(y, x);
  }

  lemma SumOfEqual(n: nat, f: nat -> nat, v: nat)
    requires forall i: nat :: i < n ==> f(i) == v
    ensures Sum(n, f) == Mul(n, v)
  {
    SumConstant(n, f, v);
    MulIsProduct(n, v);
  }

  ghost function ShlBy(s: nat): nat -> nat {
    (hi: nat) => Shl(hi, s)
  }

  lemma ShlSteps(s: nat)
    ensures ShlBy(s)(0) == 0 && forall hi: nat :: Follows(ShlBy(s), Pow2(s), hi)
  {
    ShlZero(s);
    forall hi: nat ensures Follows(ShlBy(s), Pow2(s), hi) { ShlStep(hi, s); }
  }

  lemma {:induction false} ShlStep(hi: nat, s: nat)
    ensures Shl(hi + 1, s) == Shl(hi, s) + Pow2(s)
  {
    if s > 0 { ShlStep(hi, s - 1); }
  }

  lemma {:induction false} ShlOfPow2(t: nat, s: nat)
    ensures Shl(Pow2(t), s) == Pow2(t + s)
  {
    if s > 0 { ShlOfPow2(t, s - 1); }
  }

  /** g holds the sums over the low s bits, by the high part. */
  ghost predicate Rolled(f: nat -> nat, s: nat, g: nat -> nat) {
    forall hi: nat :: RolledAt(f, s, g, hi)
  }

  ghost predicate RolledAt(f: nat -> nat, s: nat, g: nat -> nat, hi: nat) {
    g(hi) == Sum(Pow2(s), Shifted(f, Shl(hi, s)))
  }

  lemma Roll(f: nat -> nat, s: nat) returns (g: nat -> nat)
    ensures Rolled(f, s, g)
  {
    g := (hi: nat) => Sum(Pow2(s), Shifted(f, Shl(hi, s)));
  }

  lemma SumRolled(t: nat, s: nat, f: nat -> nat, g: nat -> nat)
    requires Rolled(f, s, g)
    ensures Sum(Pow2(t + s), f) == Sum(Pow2(t), g)
  {
    ShlSteps(s);
    ShlOfPow2(t, s);
    forall hi: nat ensures BlockSum(f, ShlBy(s), Pow2(s), hi, g(hi)) { assert RolledAt(f, s, g, hi); }
    SumBlocks(Pow2(t), Pow2(s), ShlBy(s), f, g);
  }

  /** f at high part hi is a multiple of a function of the low part. */
  ghost predicate Multiple(f: nat -> nat, s: nat, hi: nat, low: nat -> nat, v: nat) {
    forall lo: nat :: lo < Pow2(s) ==> f(Shl(hi, s) + lo) == Mul(low(lo), v)
  }

  lemma {:induction false} SumMultiplied(n: nat, f: nat -> nat, g: nat -> nat, v: nat)
    requires forall i: nat :: i < n ==> f(i) == Mul(g(i), v)
    ensures Sum(n, f) == Mul(Sum(n, g), v)
  {
    if n > 0 {
      SumMultiplied(n - 1, f, g, v);
      MulDistributes(Sum(n - 1, g), g(n - 1), v);
    }
  }

  lemma MultipleSum(f: nat -> nat, s: nat, hi: nat, low: nat -> nat, v: nat)
    requires Multiple(f, s, hi, low, v)
    ensures Sum(Pow2(s), Shifted(f, Shl(hi, s))) == Mul(Sum(Pow2(s), low), v)
  {
    SumMultiplied(Pow2(s), Shifted(f, Shl(hi, s)), low, v);
  }

  /** A sum of products of a function of the low and one of the high part. */
  lemma SumOfProducts(t: nat, s: nat, f: nat -> nat, low: nat -> nat, high: nat -> nat)
    requires forall hi: nat :: hi < Pow2(t) ==> Multiple(f, s, hi, low, high(hi))
    ensures Sum(Pow2(t + s), f) == Mul(Sum(Pow2(s), low), Sum(Pow2(t), high))
  {
    var g := Roll(f, s);
    SumRolled(t, s, f, g);
    forall hi: nat | hi < Pow2(t) ensures g(hi) == Mul(high(hi), Sum(Pow2(s), low)) {
      assert RolledAt(f, s, g, hi);
      MultipleSum(f, s, hi, low, high(hi));
      MulSymmetric(high(hi), Sum(Pow2(s), low));
    }
    SumMultiplied(Pow2(t), g, high, Sum(Pow2(s), low));
    MulSymmetric(Sum(Pow2(t), high), Sum(Pow2(s), low));
  }

  /** The term with high part hi and low part lo, counted from base, is a product. */
  ghost predicate ProductAt(f: nat -> nat, base: nat, s: nat, low: nat -> nat, high: nat -> nat, from: nat, hi: nat,
                            lo: nat) {
    f(base + (Shl(hi, s) + lo)) == Mul(low(lo), high(from + hi))
  }

  /** The same for a stretch of both functions. */
  lemma SumOfProductsFrom(t: nat, s: nat, f: nat -> nat, base: nat, low: nat -> nat, high: nat -> nat, from: nat)
    requires forall hi: nat, lo: nat :: hi < Pow2(t) && lo < Pow2(s) ==> ProductAt(f, base, s, low, high, from, hi, lo)
    ensures Sum(Pow2(t + s), Shifted(f, base)) == Mul(Sum(Pow2(s), low), Sum(Pow2(t), Shifted(high, from)))
  {
    var g, h := Shifted(f, base), Shifted(high, from);
    forall hi: nat | hi < Pow2(t) ensures Multiple(g, s, hi, low, h(hi)) {
      forall lo: nat | lo < Pow2(s) ensures g(Shl(hi, s) + lo) == Mul(low(lo), h(hi)) {
        assert ProductAt(f, base, s, low, high, from, hi, lo);
      }
    }
    SumOfProducts(t, s, g, low, h);
  }

  ghost function RowSum(n: nat, f: (nat, nat) -> nat): nat -> nat {
    (i: nat) => Sum(n, Row(f, i))
  }

  ghost function Row(f: (nat, nat) -> nat, i: nat): nat -> nat {
    (x: nat) => f(i, x)
  }

  ghost function ColumnSum(m: nat, f: (nat, nat) -> nat): nat -> nat {
    (x: nat) => Sum(m, Column(f, x))
  }

  ghost function Column(f: (nat, nat) -> nat, x: nat): nat -> nat {
    (i: nat) => f(i, x)
  }

  /** The order of two sums does not matter. */
  lemma {:induction false} SumExchange(m: nat, n: nat, f: (nat, nat) -> nat)
    ensures Sum(m, RowSum(n, f)) == Sum(n, ColumnSum(m, f))
    decreases m
  {
    if m == 0 {
      SumConstant(n, ColumnSum(0, f), 0);
    } else {
      SumExchange(m - 1, n, f);
      SumAdd(n, ColumnSum(m, f), ColumnSum(m - 1, f), Row(f, m - 1));
    }
  }
}
