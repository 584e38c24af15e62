/** The smooth scheme of consistent hashing: the asterisk bits are independent of the bits the large and the short
    scheme look at, so the share of every bucket can be counted exactly, for every number of buckets. */
module ConsistentSmooth {
  import opened Bits
  import opened Sums
  import opened ConsistentHashing
  import opened ConsistentFairness
  import opened ConsistentAsterisk

  // ---------------------------------------------------------------- used and free bits are independent

  ghost function First(alpha: (nat, nat, nat) -> nat, v: nat, c: nat): nat -> nat {
    (u: nat) => alpha(u, v, c)
  }

  /** The words of a hash whose upper three words are abc and whose lowest word is a. */
  lemma WordsOfJoin(width: nat, upper: nat, a: nat, x: nat)
    requires a < Pow2(width) && x == Shl(upper, width) + a
    ensures WordA(width, x) == a && WordB(width, x) == Cut(upper, width) && Shr(x, 2 * width) == Shr(upper, width)
  {
    Joined(upper, a, width);
    CutCut(x, 2 * width, width);
    ShrCut(x, width, width);
    ShrShr(x, width, width);
  }

  /** f is a function of the used bits times one of the free bits. */
  ghost predicate Separated(f: nat -> nat, width: nat, k: nat, alpha: (nat, nat, nat) -> nat, beta: nat -> nat)
    requires 1 <= k <= width
  {
    forall x: nat :: x < Pow2(4 * width) ==> SeparatedAt(f, width, k, alpha, beta, x)
  }

  ghost predicate SeparatedAt(f: nat -> nat, width: nat, k: nat, alpha: (nat, nat, nat) -> nat, beta: nat -> nat, x: nat)
    requires 1 <= k <= width
  {
    f(x) == Mul(Used(width, k, alpha, x), beta(Free(width, k, x)))
  }

  ghost function Used(width: nat, k: nat, alpha: (nat, nat, nat) -> nat, x: nat): nat
    requires 1 <= k <= width
  {
    alpha(Cut(WordA(width, x), k - 1), Cut(WordB(width, x), k - 1), Cut(Shr(x, 2 * width), k))
  }

  lemma JoinBelow(t: nat, s: nat, hi: nat, lo: nat)
    requires hi < Pow2(t) && lo < Pow2(s)
    ensures Shl(hi, s) + lo < Pow2(t + s)
  {
    ShlOfPow2(t, s);
    ShlMonotone(hi + 1, Pow2(t), s);
    ShlStep(hi, s);
  }

  lemma {:induction false} ShlMonotone(x: nat, y: nat, s: nat)
    requires x <= y
    ensures Shl(x, s) <= Shl(y, s)
  {
    if s > 0 { ShlMonotone(x, y, s - 1); }
  }

  /** The used and the free bits of a hash, given by its parts. */
  lemma PartsOfHash(width: nat, k: nat, alpha: (nat, nat, nat) -> nat, upper: nat, aHigh: nat, aLow: nat, x: nat)
    requires 1 <= k <= width && aHigh < Pow2(width - k + 1) && aLow < Pow2(k - 1)
    requires x == Shl(upper, width) + (Shl(aHigh, k - 1) + aLow)
    ensures var hi, b := Shr(upper, width), Cut(upper, width);
            && Used(width, k, alpha, x) == alpha(aLow, Cut(b, k - 1), Cut(hi, k))
            && Free(width, k, x) == FreeBits(width - k + 1, Shr(hi, k), Shr(b, k - 1), aHigh)
  {
    var a := Shl(aHigh, k - 1) + aLow;
    JoinBelow(width - k + 1, k - 1, aHigh, aLow);
    WordsOfJoin(width, upper, a, x);
    Joined(aHigh, aLow, k - 1);
  }

  /** What stands above the high part of a. */
  ghost function Above(width: nat, k: nat, upper: nat): nat
    requires 1 <= k <= width
  {
    Shl(Shr(Shr(upper, width), k), width - k + 1) + Shr(Cut(upper, width), k - 1)
  }

  ghost function LowOf(alpha: (nat, nat, nat) -> nat, width: nat, k: nat, upper: nat): nat -> nat
    requires 1 <= k <= width
  {
    First(alpha, Cut(Cut(upper, width), k - 1), Cut(Shr(upper, width), k))
  }

  lemma TermOfA(f: nat -> nat, width: nat, k: nat, alpha: (nat, nat, nat) -> nat, beta: nat -> nat, upper: nat,
                aHigh: nat, aLow: nat)
    requires 1 <= k <= width && Separated(f, width, k, alpha, beta) && upper < Pow2(3 * width)
    requires aHigh < Pow2(width - k + 1) && aLow < Pow2(k - 1)
    ensures f(Shl(upper, width) + (Shl(aHigh, k - 1) + aLow))
            == Mul(LowOf(alpha, width, k, upper)(aLow), beta(Shl(Above(width, k, upper), width - k + 1) + aHigh))
  {
    var x := Shl(upper, width) + (Shl(aHigh, k - 1) + aLow);
    HashBelow(width, k, upper, aHigh, aLow, x);
    assert SeparatedAt(f, width, k, alpha, beta, x);
    PartsOfHash(width, k, alpha, upper, aHigh, aLow, x);
  }

  lemma HashBelow(width: nat, k: nat, upper: nat, aHigh: nat, aLow: nat, x: nat)
    requires 1 <= k <= width && upper < Pow2(3 * width) && aHigh < Pow2(width - k + 1) && aLow < Pow2(k - 1)
    requires x == Shl(upper, width) + (Shl(aHigh, k - 1) + aLow)
    ensures x < Pow2(4 * width)
  {
    JoinBelow(width - k + 1, k - 1, aHigh, aLow);
    JoinBelow(3 * width, width, upper, Shl(aHigh, k - 1) + aLow);
  }

  /** The lowest word, the others being fixed. */
  lemma SumOverA(f: nat -> nat, width: nat, k: nat, alpha: (nat, nat, nat) -> nat, beta: nat -> nat, upper: nat)
    requires 1 <= k <= width && Separated(f, width, k, alpha, beta) && upper < Pow2(3 * width)
    ensures Sum(Pow2(width), Shifted(f, Shl(upper, width)))
            == Mul(Sum(Pow2(k - 1), LowOf(alpha, width, k, upper)),
                   Sum(Pow2(width - k + 1), Shifted(beta, Shl(Above(width, k, upper), width - k + 1))))
  {
    var h, s, low := k - 1, width - k + 1, LowOf(alpha, width, k, upper);
    var base, from := Shl(upper, width), Shl(Above(width, k, upper), s);
    forall hi: nat, lo: nat | hi < Pow2(s) && lo < Pow2(h) ensures ProductAt(f, base, h, low, beta, from, hi, lo) {
      TermOfA(f, width, k, alpha, beta, upper, hi, lo);
    }
    SumOfProductsFrom(s, h, f, base, low, beta, from);
  }

  /** second(c) sums alpha over its first argument, */
  ghost predicate Seconds(alpha: (nat, nat, nat) -> nat, h: nat, second: nat -> nat -> nat) {
    forall c: nat, v: nat :: SecondAt(alpha, h, second, c, v)
  }

  ghost predicate SecondAt(alpha: (nat, nat, nat) -> nat, h: nat, second: nat -> nat -> nat, c: nat, v: nat) {
    second(c)(v) == Sum(Pow2(h), First(alpha, v, c))
  }

  /** and third over its first two. */
  ghost predicate Thirds(second: nat -> nat -> nat, h: nat, third: nat -> nat) {
    forall c: nat :: ThirdAt(second, h, third, c)
  }

  ghost predicate ThirdAt(second: nat -> nat -> nat, h: nat, third: nat -> nat, c: nat) {
    third(c) == Sum(Pow2(h), second(c))
  }

  /** After the sum over a, rows is a function of the used times one of the free bits that are left. */
  ghost predicate RowAt(rows: nat -> nat, width: nat, k: nat, second: nat -> nat -> nat, beta: nat -> nat, upper: nat)
    requires 1 <= k <= width
  {
    rows(upper) == Mul(second(Cut(Shr(upper, width), k))(Cut(Cut(upper, width), k - 1)), beta(Above(width, k, upper)))
  }

  lemma Rows(f: nat -> nat, width: nat, k: nat, alpha: (nat, nat, nat) -> nat, beta: nat -> nat, upper: nat,
             rows: nat -> nat, second: nat -> nat -> nat, free: nat -> nat)
    requires 1 <= k <= width && Separated(f, width, k, alpha, beta) && upper < Pow2(3 * width)
    requires Rolled(f, width, rows) && Seconds(alpha, k - 1, second) && Rolled(beta, width - k + 1, free)
    ensures RowAt(rows, width, k, second, free, upper)
  {
    SumOverA(f, width, k, alpha, beta, upper);
    assert RolledAt(f, width, rows, upper) && RolledAt(beta, width - k + 1, free, Above(width, k, upper));
    assert SecondAt(alpha, k - 1, second, Cut(Shr(upper, width), k), Cut(Cut(upper, width), k - 1));
  }

  lemma TermOfB(rows: nat -> nat, width: nat, k: nat, second: nat -> nat -> nat, beta: nat -> nat, hi: nat, bHigh: nat,
                bLow: nat)
    requires 1 <= k <= width && hi < Pow2(2 * width) && bHigh < Pow2(width - k + 1) && bLow < Pow2(k - 1)
    requires forall upper: nat :: upper < Pow2(3 * width) ==> RowAt(rows, width, k, second, beta, upper)
    ensures rows(Shl(hi, width) + (Shl(bHigh, k - 1) + bLow))
            == Mul(second(Cut(hi, k))(bLow), beta(Shl(Shr(hi, k), width - k + 1) + bHigh))
  {
    var b := Shl(bHigh, k - 1) + bLow;
    JoinBelow(width - k + 1, k - 1, bHigh, bLow);
    JoinBelow(2 * width, width, hi, b);
    assert RowAt(rows, width, k, second, beta, Shl(hi, width) + b);
    Joined(hi, b, width);
    Joined(bHigh, bLow, k - 1);
  }

  ghost predicate HalfAt(halves: nat -> nat, k: nat, third: nat -> nat, beta: nat -> nat, hi: nat) {
    halves(hi) == Mul(third(Cut(hi, k)), beta(Shr(hi, k)))
  }

  /** The two lowest words, the upper half being fixed. */
  lemma SumOverB(rows: nat -> nat, width: nat, k: nat, second: nat -> nat -> nat, beta: nat -> nat, hi: nat,
                 halves: nat -> nat, third: nat -> nat, free: nat -> nat)
    requires 1 <= k <= width && hi < Pow2(2 * width)
    requires forall upper: nat :: upper < Pow2(3 * width) ==> RowAt(rows, width, k, second, beta, upper)
    requires Rolled(rows, width, halves) && Thirds(second, k - 1, third) && Rolled(beta, width - k + 1, free)
    ensures HalfAt(halves, k, third, free, hi)
  {
    var h, s, low := k - 1, width - k + 1, second(Cut(hi, k));
    var base, from := Shl(hi, width), Shl(Shr(hi, k), s);
    forall hb: nat, lb: nat | hb < Pow2(s) && lb < Pow2(h) ensures ProductAt(rows, base, h, low, beta, from, hb, lb) {
      TermOfB(rows, width, k, second, beta, hi, hb, lb);
    }
    SumOfProductsFrom(s, h, rows, base, low, beta, from);
    assert RolledAt(rows, width, halves, hi) && RolledAt(beta, s, free, Shr(hi, k));
    assert ThirdAt(second, h, third, Cut(hi, k));
  }

  /** All words. */
  lemma SumOverC(halves: nat -> nat, t: nat, k: nat, third: nat -> nat, beta: nat -> nat)
    requires forall hi: nat :: hi < Pow2(t + k) ==> HalfAt(halves, k, third, beta, hi)
    ensures Sum(Pow2(t + k), halves) == Mul(Sum(Pow2(k), third), Sum(Pow2(t), beta))
  {
    forall e: nat | e < Pow2(t) ensures Multiple(halves, k, e, third, beta(e)) {
      forall c: nat | c < Pow2(k) ensures halves(Shl(e, k) + c) == Mul(third(c), beta(e)) {
        JoinBelow(t, k, e, c);
        assert HalfAt(halves, k, third, beta, Shl(e, k) + c);
        Joined(e, c, k);
      }
    }
    SumOfProducts(t, k, halves, third, beta);
  }

  /** The sum over all hashes is the sum over the used bits times the sum over the free bits. */
  lemma Independent(f: nat -> nat, width: nat, k: nat, alpha: (nat, nat, nat) -> nat, beta: nat -> nat,
                    second: nat -> nat -> nat, third: nat -> nat)
    requires 1 <= k <= width && Separated(f, width, k, alpha, beta)
    requires Seconds(alpha, k - 1, second) && Thirds(second, k - 1, third)
    ensures Sum(Pow2(4 * width), f) == Mul(Sum(Pow2(k), third), Sum(Pow2(4 * width - 3 * k + 2), beta))
  {
    IndependentParts(f, width, k, alpha, beta, second, third, width - k + 1, 2 * width - k);
    SamePower(f, 2 * width + width + width, 4 * width);
    SamePower(beta, 2 * width - k + (width - k + 1) + (width - k + 1), 4 * width - 3 * k + 2);
  }

  lemma IndependentParts(f: nat -> nat, width: nat, k: nat, alpha: (nat, nat, nat) -> nat, beta: nat -> nat,
                         second: nat -> nat -> nat, third: nat -> nat, s: nat, t: nat)
    requires 1 <= k <= width && Separated(f, width, k, alpha, beta) && s == width - k + 1 && t == 2 * width - k
    requires Seconds(alpha, k - 1, second) && Thirds(second, k - 1, third)
    ensures Sum(Pow2(2 * width + width + width), f) == Mul(Sum(Pow2(k), third), Sum(Pow2(t + s + s), beta))
  {
    var rows := Roll(f, width);
    var halves := Roll(rows, width);
    var free1 := Roll(beta, s);
    var free2 := Roll(free1, s);
    AllHalves(f, width, k, alpha, beta, second, third, rows, halves, free1, free2);
    Assembled(f, 2 * width, t, width, k, s, beta, third, rows, halves, free1, free2);
  }

  lemma SamePower(f: nat -> nat, t: nat, u: nat)
    requires t == u
    ensures Sum(Pow2(t), f) == Sum(Pow2(u), f)
  {
  }

  lemma Assembled(f: nat -> nat, half: nat, t: nat, width: nat, k: nat, s: nat, beta: nat -> nat, third: nat -> nat,
                  rows: nat -> nat, halves: nat -> nat, free1: nat -> nat, free2: nat -> nat)
    requires half == t + k && Rolled(f, width, rows) && Rolled(rows, width, halves)
    requires Rolled(beta, s, free1) && Rolled(free1, s, free2)
    requires forall hi: nat :: hi < Pow2(half) ==> HalfAt(halves, k, third, free2, hi)
    ensures Sum(Pow2(half + width + width), f) == Mul(Sum(Pow2(k), third), Sum(Pow2(t + s + s), beta))
  {
    SamePower(halves, t + k, half);
    SumOverC(halves, t, k, third, free2);
    SumRolledTwice(half, width, f, rows, halves);
    SumRolledTwice(t, s, beta, free1, free2);
  }

  lemma AllHalves(f: nat -> nat, width: nat, k: nat, alpha: (nat, nat, nat) -> nat, beta: nat -> nat,
                  second: nat -> nat -> nat, third: nat -> nat, rows: nat -> nat, halves: nat -> nat,
                  free1: nat -> nat, free2: nat -> nat)
    requires 1 <= k <= width && Separated(f, width, k, alpha, beta)
    requires Seconds(alpha, k - 1, second) && Thirds(second, k - 1, third)
    requires Rolled(f, width, rows) && Rolled(rows, width, halves)
    requires Rolled(beta, width - k + 1, free1) && Rolled(free1, width - k + 1, free2)
    ensures forall hi: nat :: hi < Pow2(2 * width) ==> HalfAt(halves, k, third, free2, hi)
  {
    forall upper: nat | upper < Pow2(3 * width) ensures RowAt(rows, width, k, second, free1, upper) {
      Rows(f, width, k, alpha, beta, upper, rows, second, free1);
    }
    forall hi: nat | hi < Pow2(2 * width) ensures HalfAt(halves, k, third, free2, hi) {
      SumOverB(rows, width, k, second, free1, hi, halves, third, free2);
    }
  }

  lemma SumRolledTwice(t: nat, s: nat, f: nat -> nat, g: nat -> nat, h: nat -> nat)
    requires Rolled(f, s, g) && Rolled(g, s, h)
    ensures Sum(Pow2(t + s + s), f) == Sum(Pow2(t), h)
  {
    SumRolled(t + s, s, f, g);
    SumRolled(t, s, g, h);
  }

  /** A function of the low bits alone is summed over each value of them equally often. */
  lemma SumOfCut(more: nat, bits: nat, f: nat -> nat, beta: nat -> nat)
    requires forall free: nat :: OfCut(f, bits, beta, free)
    ensures Sum(Pow2(more + bits), f) == Mul(Sum(Pow2(bits), beta), Pow2(more))
  {
    var one := Ones();
    forall hi: nat | hi < Pow2(more) ensures Multiple(f, bits, hi, beta, one(hi)) { CutTerms(bits, f, beta, hi); }
    SumOfProducts(more, bits, f, beta, one);
    SumConstant(Pow2(more), one, 1);
  }

  lemma Ones() returns (one: nat -> nat)
    ensures forall i: nat :: one(i) == 1
  {
    one := Constant(1);
  }

  lemma CutTerms(bits: nat, f: nat -> nat, beta: nat -> nat, hi: nat)
    requires forall free: nat :: OfCut(f, bits, beta, free)
    ensures Multiple(f, bits, hi, beta, 1)
  {
    forall lo: nat | lo < Pow2(bits) ensures f(Shl(hi, bits) + lo) == Mul(beta(lo), 1) {
      assert OfCut(f, bits, beta, Shl(hi, bits) + lo);
      Joined(hi, lo, bits);
      MulIsProduct(beta(lo), 1);
    }
  }

  ghost predicate OfCut(f: nat -> nat, bits: nat, beta: nat -> nat, free: nat) {
    f(free) == beta(Cut(free, bits))
  }

  // ---------------------------------------------------------------- the used bits

  /** The weight of the short result, for used bits u of a, v of b and c whose large result is large. */
  ghost function ChosenAt(large: nat, weight: nat -> nat, h: nat, u: nat, v: nat, c: nat): nat {
    if OfBlock(u, v, c) == large then weight(OfBlock(u, v, Cut(c, h))) else 0
  }

  ghost function Chosen(large: nat, weight: nat -> nat, h: nat): (nat, nat, nat) -> nat {
    (u: nat, v: nat, c: nat) => ChosenAt(large, weight, h, u, v, c)
  }

  /** The block of c decides for one word; without its top bit it decides for the other one. */
  lemma {:induction false} PopCountTop(c: nat, h: nat)
    requires c < Pow2(h)
    ensures PopCount(Pow2(h) + c) == 1 + PopCount(c)
  {
    if h > 0 {
      PopCountTop(c / 2, h - 1);
      assert (Pow2(h) + c) / 2 == Pow2(h - 1) + c / 2 && (Pow2(h) + c) % 2 == c % 2;
    } else {
      assert PopCount(1) == 1 + PopCount(0);
    }
  }

  lemma TopSelect(u: nat, v: nat, c: nat, top: nat)
    requires PopCount(top) == 1 + PopCount(c)
    ensures SelectAOrBBlock(u, v, top) == if PopCount(c) % 2 == 1 then u else v
  {
    ParityFlips(PopCount(top), PopCount(c));
  }

  lemma ParityFlips(p: nat, q: nat)
    requires p == 1 + q
    ensures p % 2 == 0 <==> q % 2 == 1
  {
  }

  lemma TopCut(c: nat, h: nat)
    requires c < Pow2(h)
    ensures Cut(Pow2(h) + c, h) == c
  {
    Joined(1, c, h);
    ShlOfPow2(0, h);
  }

  lemma OneWord(u: nat, v: nat, c: nat)
    ensures var z := if PopCount(c) % 2 == 1 then v else u; OfBlock(u, v, c) == OfBlock(z, z, c)
  {
  }

  lemma TopForm(u: nat, v: nat, c: nat, h: nat)
    requires c < Pow2(h) && u < Pow2(h) && v < Pow2(h)
    ensures OfBlock(u, v, Pow2(h) + c) == Pow2(h) + SelectAOrBBlock(u, v, Pow2(h) + c)
  {
    BlockForm(u, v, Pow2(h) + c, h);
    var word := SelectAOrBBlock(u, v, Pow2(h) + c);
    DivModUnique(word, Pow2(h), 0, word);
  }

  /** spread(c) is the weight of the results that one word gives with the block c. */
  ghost predicate Spreads(weight: nat -> nat, h: nat, spread: nat -> nat) {
    forall c: nat :: SpreadAt(weight, h, spread, c)
  }

  ghost predicate SpreadAt(weight: nat -> nat, h: nat, spread: nat -> nat, c: nat) {
    spread(c) == Sum(Pow2(h), Results(weight, c))
  }

  ghost function Results(weight: nat -> nat, c: nat): nat -> nat {
    (z: nat) => weight(OfBlock(z, z, c))
  }

  lemma FirstOfTop(large: nat, weight: nat -> nat, h: nat, v: nat, c: nat, u: nat)
    requires c < Pow2(h) && u < Pow2(h) && v < Pow2(h) && Pow2(h) <= large
    ensures First(Chosen(large, weight, h), v, Pow2(h) + c)(u)
            == if PopCount(c) % 2 == 1 then (if u == large - Pow2(h) then Results(weight, c)(v) else 0)
               else (if v == large - Pow2(h) then Results(weight, c)(u) else 0)
  {
    TopForm(u, v, c, h);
    PopCountTop(c, h);
    TopCut(c, h);
    FirstAtTop(large, weight, h, u, v, c, Pow2(h) + c);
  }

  lemma FirstAtTop(large: nat, weight: nat -> nat, h: nat, u: nat, v: nat, c: nat, top: nat)
    requires Cut(top, h) == c && PopCount(top) == 1 + PopCount(c) && Pow2(h) <= large
    requires OfBlock(u, v, top) == Pow2(h) + SelectAOrBBlock(u, v, top)
    ensures First(Chosen(large, weight, h), v, top)(u)
            == if PopCount(c) % 2 == 1 then (if u == large - Pow2(h) then Results(weight, c)(v) else 0)
               else (if v == large - Pow2(h) then Results(weight, c)(u) else 0)
  {
    TopSelect(u, v, c, top);
    OneWord(u, v, c);
    if PopCount(c) % 2 == 1 {
      ChosenValue(large, weight, h, u, v, c, top, v, u);
    } else {
      ChosenValue(large, weight, h, u, v, c, top, u, v);
    }
  }

  lemma ChosenValue(large: nat, weight: nat -> nat, h: nat, u: nat, v: nat, c: nat, top: nat, word: nat, other: nat)
    requires Cut(top, h) == c && OfBlock(u, v, top) == Pow2(h) + other && OfBlock(u, v, c) == OfBlock(word, word, c)
    ensures First(Chosen(large, weight, h), v, top)(u) == if Pow2(h) + other == large then Results(weight, c)(word) else 0
  {
    assert First(Chosen(large, weight, h), v, top)(u) == ChosenAt(large, weight, h, u, v, top);
  }

  lemma FirstBelow(large: nat, weight: nat -> nat, h: nat, v: nat, c: nat, u: nat)
    requires c < Pow2(h) <= large
    ensures First(Chosen(large, weight, h), v, c)(u) == 0
  {
    BlockResultLength(u, v, c);
    SameLengthSameBound(c, OfBlock(u, v, c), h);
    assert First(Chosen(large, weight, h), v, c)(u) == ChosenAt(large, weight, h, u, v, c);
  }

  /** The sum over u when the block decides for it, */
  lemma SecondOfU(large: nat, weight: nat -> nat, h: nat, v: nat, c: nat)
    requires c < Pow2(h) && v < Pow2(h) <= large < 2 * Pow2(h) && PopCount(c) % 2 == 1
    ensures Sum(Pow2(h), First(Chosen(large, weight, h), v, Pow2(h) + c)) == Results(weight, c)(v)
  {
    var f, l := First(Chosen(large, weight, h), v, Pow2(h) + c), large - Pow2(h);
    forall u: nat | u < Pow2(h) ensures f(u) == if l <= u < l + 1 then Results(weight, c)(v) else 0 {
      FirstOfTop(large, weight, h, v, c, u);
    }
    SumInterval(Pow2(h), f, l, l + 1, Results(weight, c)(v));
  }

  /** and when it decides for v. */
  lemma SecondOfV(large: nat, weight: nat -> nat, h: nat, v: nat, c: nat)
    requires c < Pow2(h) && v < Pow2(h) <= large < 2 * Pow2(h) && PopCount(c) % 2 == 0
    ensures Sum(Pow2(h), First(Chosen(large, weight, h), v, Pow2(h) + c))
            == if v == large - Pow2(h) then Sum(Pow2(h), Results(weight, c)) else 0
  {
    var f := First(Chosen(large, weight, h), v, Pow2(h) + c);
    forall u: nat | u < Pow2(h) ensures f(u) == if v == large - Pow2(h) then Results(weight, c)(u) else 0 {
      FirstOfTop(large, weight, h, v, c, u);
    }
    SumSelected(Pow2(h), f, Results(weight, c), v == large - Pow2(h));
  }

  lemma SumSelected(n: nat, f: nat -> nat, g: nat -> nat, take: bool)
    requires forall u: nat :: u < n ==> f(u) == if take then g(u) else 0
    ensures Sum(n, f) == if take then Sum(n, g) else 0
  {
    if take { SumEqual(n, f, g); } else { SumConstant(n, f, 0); }
  }

  lemma ThirdOfTop(large: nat, weight: nat -> nat, h: nat, c: nat, second: nat -> nat -> nat, third: nat -> nat)
    requires c < Pow2(h) <= large < 2 * Pow2(h)
    requires Seconds(Chosen(large, weight, h), h, second) && Thirds(second, h, third)
    ensures third(Pow2(h) + c) == Sum(Pow2(h), Results(weight, c))
  {
    assert ThirdAt(second, h, third, Pow2(h) + c);
    if PopCount(c) % 2 == 1 {
      ThirdOfU(large, weight, h, c, second, Pow2(h) + c);
    } else {
      ThirdOfV(large, weight, h, c, second, Pow2(h) + c);
    }
  }

  lemma ThirdOfU(large: nat, weight: nat -> nat, h: nat, c: nat, second: nat -> nat -> nat, top: nat)
    requires c < Pow2(h) <= large < 2 * Pow2(h) && PopCount(c) % 2 == 1 && top == Pow2(h) + c
    requires Seconds(Chosen(large, weight, h), h, second)
    ensures Sum(Pow2(h), second(top)) == Sum(Pow2(h), Results(weight, c))
  {
    forall v: nat | v < Pow2(h) ensures second(top)(v) == Results(weight, c)(v) {
      assert SecondAt(Chosen(large, weight, h), h, second, top, v);
      SecondOfU(large, weight, h, v, c);
    }
    SumEqual(Pow2(h), second(top), Results(weight, c));
  }

  lemma ThirdOfV(large: nat, weight: nat -> nat, h: nat, c: nat, second: nat -> nat -> nat, top: nat)
    requires c < Pow2(h) <= large < 2 * Pow2(h) && PopCount(c) % 2 == 0 && top == Pow2(h) + c
    requires Seconds(Chosen(large, weight, h), h, second)
    ensures Sum(Pow2(h), second(top)) == Sum(Pow2(h), Results(weight, c))
  {
    var sum, l := Sum(Pow2(h), Results(weight, c)), large - Pow2(h);
    forall v: nat | v < Pow2(h) ensures second(top)(v) == if l <= v < l + 1 then sum else 0 {
      assert SecondAt(Chosen(large, weight, h), h, second, top, v);
      SecondOfV(large, weight, h, v, c);
    }
    SumInterval(Pow2(h), second(top), l, l + 1, sum);
  }

  lemma ThirdBelow(large: nat, weight: nat -> nat, h: nat, c: nat, second: nat -> nat -> nat, third: nat -> nat)
    requires c < Pow2(h) <= large
    requires Seconds(Chosen(large, weight, h), h, second) && Thirds(second, h, third)
    ensures third(c) == 0
  {
    assert ThirdAt(second, h, third, c);
    forall v: nat | v < Pow2(h) ensures second(c)(v) == 0 {
      assert SecondAt(Chosen(large, weight, h), h, second, c, v);
      forall u: nat | u < Pow2(h) ensures First(Chosen(large, weight, h), v, c)(u) == 0 {
        FirstBelow(large, weight, h, v, c, u);
      }
      SumConstant(Pow2(h), First(Chosen(large, weight, h), v, c), 0);
    }
    SumConstant(Pow2(h), second(c), 0);
  }

  // ---- the results of one word are spread evenly

  lemma {:induction false} SpreadEvenly(weight: nat -> nat, h: nat, spread: nat -> nat, y: nat)
    requires y <= h && Spreads(weight, h, spread)
    ensures Sum(Pow2(y), spread) == Mul(Sum(Pow2(y), weight), Pow2(h))
    decreases y
  {
    if y == 0 {
      SpreadOfZero(weight, h, spread);
    } else {
      var z := y - 1;
      SpreadEvenly(weight, h, spread, z);
      SpreadStep(weight, h, spread, z);
      assert z + 1 == y;
    }
  }

  lemma SpreadStep(weight: nat -> nat, h: nat, spread: nat -> nat, y: nat)
    requires y <= h && Spreads(weight, h, spread)
    requires Sum(Pow2(y), spread) == Mul(Sum(Pow2(y), weight), Pow2(h))
    ensures Sum(Pow2(y + 1), spread) == Mul(Sum(Pow2(y + 1), weight), Pow2(h))
  {
    SumDouble(y, spread);
    SumDouble(y, weight);
    SpreadOfOctave(weight, h, spread, y);
    MulDistributes(Sum(Pow2(y), weight), Sum(Pow2(y), Shifted(weight, Pow2(y))), Pow2(h));
  }

  lemma SumDouble(y: nat, f: nat -> nat)
    ensures Sum(Pow2(y + 1), f) == Sum(Pow2(y), f) + Sum(Pow2(y), Shifted(f, Pow2(y)))
  {
    SumSplit(Pow2(y), Pow2(y), f);
  }

  lemma SpreadOfZero(weight: nat -> nat, h: nat, spread: nat -> nat)
    requires Spreads(weight, h, spread)
    ensures Sum(Pow2(0), spread) == Mul(Sum(Pow2(0), weight), Pow2(h))
  {
    assert SpreadAt(weight, h, spread, 0);
    forall z: nat | z < Pow2(h) ensures Results(weight, 0)(z) == weight(0) { assert OfBlock(z, z, 0) == 0; }
    SumConstant(Pow2(h), Results(weight, 0), weight(0));
    MulIsProduct(weight(0), Pow2(h));
    assert Sum(1, spread) == spread(0) && Sum(1, weight) == weight(0);
  }

  /** The blocks of one octave all give the same. */
  lemma SpreadOfBlock(weight: nat -> nat, h: nat, y: nat, c: nat)
    requires y <= h && Pow2(y) <= c < Pow2(y + 1)
    ensures Sum(Pow2(h - y + y), Results(weight, c)) == Mul(Sum(Pow2(y), Shifted(weight, Pow2(y))), Pow2(h - y))
  {
    var f, beta := Results(weight, c), Shifted(weight, Pow2(y));
    forall z: nat ensures OfCut(f, y, beta, z) {
      BlockForm(z, z, c, y);
      CutIsMod(z, y);
    }
    SumOfCut(h - y, y, f, beta);
  }

  lemma SpreadOfOctave(weight: nat -> nat, h: nat, spread: nat -> nat, y: nat)
    requires y <= h && Spreads(weight, h, spread)
    ensures Sum(Pow2(y), Shifted(spread, Pow2(y))) == Mul(Sum(Pow2(y), Shifted(weight, Pow2(y))), Pow2(h))
  {
    var s := Sum(Pow2(y), Shifted(weight, Pow2(y)));
    AllOfOctave(weight, h, spread, y, s, Mul(s, Pow2(h - y)));
    EqualOctave(Shifted(spread, Pow2(y)), y, h, s, Mul(s, Pow2(h - y)));
  }

  lemma AllOfOctave(weight: nat -> nat, h: nat, spread: nat -> nat, y: nat, s: nat, each: nat)
    requires y <= h && Spreads(weight, h, spread)
    requires s == Sum(Pow2(y), Shifted(weight, Pow2(y))) && each == Mul(s, Pow2(h - y))
    ensures forall i: nat :: i < Pow2(y) ==> EachAt(Shifted(spread, Pow2(y)), each, i)
  {
    forall i: nat | i < Pow2(y) ensures EachAt(Shifted(spread, Pow2(y)), each, i) {
      SpreadInOctave(weight, h, spread, y, i);
    }
  }

  ghost predicate EachAt(octave: nat -> nat, each: nat, i: nat) {
    octave(i) == each
  }

  lemma EqualOctave(octave: nat -> nat, y: nat, h: nat, s: nat, each: nat)
    requires y <= h && each == Mul(s, Pow2(h - y)) && forall i: nat :: i < Pow2(y) ==> EachAt(octave, each, i)
    ensures Sum(Pow2(y), octave) == Mul(s, Pow2(h))
  {
    forall i: nat | i < Pow2(y) ensures octave(i) == each { assert EachAt(octave, each, i); }
    SumOfEqual(Pow2(y), octave, each);
    OctaveProduct(s, y, h);
  }

  lemma SpreadInOctave(weight: nat -> nat, h: nat, spread: nat -> nat, y: nat, i: nat)
    requires y <= h && Spreads(weight, h, spread) && i < Pow2(y)
    ensures spread(Pow2(y) + i) == Mul(Sum(Pow2(y), Shifted(weight, Pow2(y))), Pow2(h - y))
  {
    assert SpreadAt(weight, h, spread, Pow2(y) + i);
    SpreadOfBlock(weight, h, y, Pow2(y) + i);
    SamePower(Results(weight, Pow2(y) + i), h - y + y, h);
  }

  lemma OctaveProduct(s: nat, y: nat, h: nat)
    requires y <= h
    ensures Mul(Pow2(y), Mul(s, Pow2(h - y))) == Mul(s, Pow2(h))
  {
    MulIsProduct(s, Pow2(h - y));
    MulIsProduct(s, Pow2(h));
    MulIsProduct(Pow2(y), s * Pow2(h - y));
    Pow2Add(y, h - y);
    MulSwap(Pow2(y), s, Pow2(h - y));
  }

  /** Every large result from 2^h on goes together with every short result for 2^h choices of the used bits. */
  lemma UsedBits(large: nat, weight: nat -> nat, h: nat, second: nat -> nat -> nat, third: nat -> nat)
    requires Pow2(h) <= large < 2 * Pow2(h)
    requires Seconds(Chosen(large, weight, h), h, second) && Thirds(second, h, third)
    ensures Sum(Pow2(h + 1), third) == Mul(Sum(Pow2(h), weight), Pow2(h))
  {
    var spread := MakeSpread(weight, h);
    SumDouble(h, third);
    LowerBlocks(large, weight, h, second, third);
    UpperBlocks(large, weight, h, second, third, spread);
    SpreadEvenly(weight, h, spread, h);
  }

  lemma LowerBlocks(large: nat, weight: nat -> nat, h: nat, second: nat -> nat -> nat, third: nat -> nat)
    requires Pow2(h) <= large && Seconds(Chosen(large, weight, h), h, second) && Thirds(second, h, third)
    ensures Sum(Pow2(h), third) == 0
  {
    forall c: nat | c < Pow2(h) ensures third(c) == 0 { ThirdBelow(large, weight, h, c, second, third); }
    SumConstant(Pow2(h), third, 0);
  }

  lemma UpperBlocks(large: nat, weight: nat -> nat, h: nat, second: nat -> nat -> nat, third: nat -> nat,
                    spread: nat -> nat)
    requires Pow2(h) <= large < 2 * Pow2(h) && Spreads(weight, h, spread)
    requires Seconds(Chosen(large, weight, h), h, second) && Thirds(second, h, third)
    ensures Sum(Pow2(h), Shifted(third, Pow2(h))) == Sum(Pow2(h), spread)
  {
    forall c: nat | c < Pow2(h) ensures Shifted(third, Pow2(h))(c) == spread(c) {
      ThirdOfTop(large, weight, h, c, second, third);
      assert SpreadAt(weight, h, spread, c);
    }
    SumEqual(Pow2(h), Shifted(third, Pow2(h)), spread);
  }

  lemma MakeSpread(weight: nat -> nat, h: nat) returns (spread: nat -> nat)
    ensures Spreads(weight, h, spread)
  {
    spread := (c: nat) => Sum(Pow2(h), Results(weight, c));
  }

  // ---------------------------------------------------------------- hashes with a given large result

  /** Only the low bits of the words matter. */
  lemma LowBitsDecide(a: nat, b: nat, cBlock: nat, h: nat)
    requires cBlock < Pow2(h + 1)
    ensures OfBlock(a, b, cBlock) == OfBlock(Cut(a, h), Cut(b, h), cBlock)
  {
    if cBlock >= 2 {
      var y := BitLength(cBlock) - 1;
      BitLengthBounds(cBlock, h + 1);
      SameMask(a, y, h);
      SameMask(b, y, h);
    }
  }

  lemma SameMask(a: nat, y: nat, h: nat)
    requires y <= h
    ensures And(a, Pow2(y) - 1) == And(Cut(a, h), Pow2(y) - 1)
  {
    MaskIsCut(a, y);
    MaskIsCut(Cut(a, h), y);
    CutCut(a, h, y);
  }

  /** The power-of-two scheme for k or fewer bits, by the used bits. */
  lemma PowerBucketByUsed(width: nat, x: nat, k: nat, j: nat)
    requires 1 <= k <= width && j <= k
    ensures PowerBucket(width, x, j)
            == OfBlock(Cut(WordA(width, x), k - 1), Cut(WordB(width, x), k - 1), Cut(Cut(Shr(x, 2 * width), k), j))
  {
    var hi := Shr(x, 2 * width);
    MaskIsCut(WordC(width, x), j);
    CutCut(hi, width, j);
    CutCut(hi, k, j);
    CutIsMod(hi, j);
    Pow2Monotone(j, k);
    LowBitsDecide(WordA(width, x), WordB(width, x), Cut(hi, j), k - 1);
  }

  /** f is the weight of a hash: that of its short result times that of its asterisk bits, if its large result is
      large. */
  ghost predicate Weighs(f: nat -> nat, width: nat, k: nat, large: nat, weight: nat -> nat, beta: nat -> nat)
    requires 1 <= k <= width
  {
    forall x: nat :: x < Pow2(4 * width) ==> WeighsAt(f, width, k, large, weight, beta, x)
  }

  ghost predicate WeighsAt(f: nat -> nat, width: nat, k: nat, large: nat, weight: nat -> nat, beta: nat -> nat, x: nat)
    requires 1 <= k <= width
  {
    f(x) == Mul(if PowerBucket(width, x, k) == large then weight(PowerBucket(width, x, k - 1)) else 0,
                beta(AsteriskOf(width, x, k)))
  }

  lemma ChosenByUsed(width: nat, k: nat, large: nat, weight: nat -> nat, x: nat)
    requires 1 <= k <= width
    ensures Used(width, k, Chosen(large, weight, k - 1), x)
            == if PowerBucket(width, x, k) == large then weight(PowerBucket(width, x, k - 1)) else 0
  {
    PowerBucketByUsed(width, x, k, k);
    PowerBucketByUsed(width, x, k, k - 1);
    CutCut(Shr(x, 2 * width), k, k);
    var u, v, c := Cut(WordA(width, x), k - 1), Cut(WordB(width, x), k - 1), Cut(Shr(x, 2 * width), k);
    assert Chosen(large, weight, k - 1)(u, v, c) == ChosenAt(large, weight, k - 1, u, v, c);
  }

  lemma WeightsSeparated(f: nat -> nat, width: nat, k: nat, large: nat, weight: nat -> nat, beta: nat -> nat,
                         free: nat -> nat)
    requires 1 <= k <= width <= INT_BITS && Weighs(f, width, k, large, weight, beta)
    requires forall v: nat :: OfCut(free, AsteriskBits(width, k), beta, v)
    ensures Separated(f, width, k, Chosen(large, weight, k - 1), free)
  {
    var alpha := Chosen(large, weight, k - 1);
    forall x: nat | x < Pow2(4 * width) ensures SeparatedAt(f, width, k, alpha, free, x) {
      assert WeighsAt(f, width, k, large, weight, beta, x);
      ChosenByUsed(width, k, large, weight, x);
      AsteriskIsFree(width, x, k);
      assert OfCut(free, AsteriskBits(width, k), beta, Free(width, k, x));
    }
  }

  lemma MakeFree(bits: nat, beta: nat -> nat) returns (free: nat -> nat)
    ensures forall v: nat :: OfCut(free, bits, beta, v)
  {
    free := (v: nat) => beta(Cut(v, bits));
  }

  lemma MakeSums(alpha: (nat, nat, nat) -> nat, h: nat) returns (second: nat -> nat -> nat, third: nat -> nat)
    ensures Seconds(alpha, h, second) && Thirds(second, h, third)
  {
    second := (c: nat) => (v: nat) => Sum(Pow2(h), First(alpha, v, c));
    third := (c: nat) => Sum(Pow2(h), second(c));
  }

  /** How many hashes have one value of the large result, the short result and the asterisk bits. */
  ghost function Unit(width: nat, k: nat): nat
    requires 1 <= k <= width <= INT_BITS
  {
    Pow2(4 * width - 3 * k + 2 - AsteriskBits(width, k) + (k - 1))
  }

  /** Large result, short result and asterisk bits are independent and each evenly spread. */
  lemma WeightSum(f: nat -> nat, width: nat, k: nat, large: nat, weight: nat -> nat, beta: nat -> nat)
    requires 1 <= k <= width <= INT_BITS && Pow2(k - 1) <= large < Pow2(k) && Weighs(f, width, k, large, weight, beta)
    ensures Sum(Pow2(4 * width), f)
            == Mul(Mul(Sum(Pow2(k - 1), weight), Sum(Pow2(AsteriskBits(width, k)), beta)), Unit(width, k))
  {
    var free := MakeFree(AsteriskBits(width, k), beta);
    WeightsSeparated(f, width, k, large, weight, beta, free);
    WeightSumOf(f, width, k, large, weight, free, beta, AsteriskBits(width, k));
  }

  lemma WeightSumOf(f: nat -> nat, width: nat, k: nat, large: nat, weight: nat -> nat, free: nat -> nat,
                    beta: nat -> nat, bits: nat)
    requires 1 <= k <= width && Pow2(k - 1) <= large < Pow2(k) && bits <= 4 * width - 3 * k + 2
    requires Separated(f, width, k, Chosen(large, weight, k - 1), free) && forall v: nat :: OfCut(free, bits, beta, v)
    ensures Sum(Pow2(4 * width), f)
            == Mul(Mul(Sum(Pow2(k - 1), weight), Sum(Pow2(bits), beta)), Pow2(4 * width - 3 * k + 2 - bits + (k - 1)))
  {
    SeparateSums(f, width, k, large, weight, free);
    FreeSum(4 * width - 3 * k + 2, bits, free, beta);
    Compose(Sum(Pow2(4 * width), f), Sum(Pow2(k - 1), weight), Sum(Pow2(bits), beta),
            Sum(Pow2(4 * width - 3 * k + 2), free), k - 1, 4 * width - 3 * k + 2 - bits);
  }

  lemma Compose(sum: nat, w: nat, b: nat, sumFree: nat, h: nat, e: nat)
    requires sum == Mul(Mul(w, Pow2(h)), sumFree) && sumFree == Mul(b, Pow2(e))
    ensures sum == Mul(Mul(w, b), Pow2(e + h))
  {
    WeightProduct(w, b, h, e);
  }

  lemma SeparateSums(f: nat -> nat, width: nat, k: nat, large: nat, weight: nat -> nat, free: nat -> nat)
    requires 1 <= k <= width && Pow2(k - 1) <= large < Pow2(k)
    requires Separated(f, width, k, Chosen(large, weight, k - 1), free)
    ensures Sum(Pow2(4 * width), f)
            == Mul(Mul(Sum(Pow2(k - 1), weight), Pow2(k - 1)), Sum(Pow2(4 * width - 3 * k + 2), free))
  {
    var second, third := MakeSums(Chosen(large, weight, k - 1), k - 1);
    Independent(f, width, k, Chosen(large, weight, k - 1), free, second, third);
    UsedBits(large, weight, k - 1, second, third);
    SamePower(third, k - 1 + 1, k);
  }

  lemma FreeSum(total: nat, bits: nat, free: nat -> nat, beta: nat -> nat)
    requires bits <= total && forall v: nat :: OfCut(free, bits, beta, v)
    ensures Sum(Pow2(total), free) == Mul(Sum(Pow2(bits), beta), Pow2(total - bits))
  {
    SumOfCut(total - bits, bits, free, beta);
    SamePower(free, total - bits + bits, total);
  }

  lemma WeightProduct(w: nat, b: nat, h: nat, e: nat)
    ensures Mul(Mul(w, Pow2(h)), Mul(b, Pow2(e))) == Mul(Mul(w, b), Pow2(e + h))
  {
    MulIsProduct(w, Pow2(h));
    MulIsProduct(b, Pow2(e));
    MulIsProduct(w * Pow2(h), b * Pow2(e));
    MulIsProduct(w, b);
    MulIsProduct(w * b, Pow2(e + h));
    Pow2Add(e, h);
    FourProduct(w, Pow2(h), b, Pow2(e));
  }

  lemma FourProduct(w: nat, p: nat, b: nat, q: nat)
    ensures (w * p) * (b * q) == (w * b) * (q * p)
  {
    assert (w * p) * (b * q) == w * (p * (b * q));
    assert p * (b * q) == b * (q * p);
    assert w * (b * (q * p)) == (w * b) * (q * p);
  }
}
