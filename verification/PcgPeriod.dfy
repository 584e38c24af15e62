/** The period promised by period_pow2(), and exactly which coefficients give a full period. */
module PcgPeriod {
  import opened Bits
  import opened PcgEngine
  import opened PcgDistance

  ghost predicate AlwaysFlips(bits: nat, mcg: bool, g: nat -> nat, k: nat) {
    forall x: nat {:trigger g(x)} :: GoodState(bits, mcg, x) ==> Flipped(bits, mcg, k, x, g(x))
  }

  /** n steps that each flip bit k flip it n times. */
  lemma {:induction false} FlipParity(bits: nat, mcg: bool, g: nat -> nat, k: nat, x: nat, n: nat)
    requires AlwaysFlips(bits, mcg, g, k) && GoodState(bits, mcg, x)
    ensures Bit(Iter(g, x, n), k) == (Bit(x, k) != (n % 2 == 1))
    decreases n
  {
    if n > 0 { FlipParity(bits, mcg, g, k, g(x), n - 1); }
  }

  ghost function Stride(f: nat -> nat, p: nat): nat -> nat {
    (x: nat) => Iter(f, x, p)
  }

  lemma {:induction false} IterStride(f: nat -> nat, p: nat, x: nat, n: nat)
    ensures Iter(Stride(f, p), x, n) == Iter(f, x, n * p)
    decreases n
  {
    if n > 0 {
      IterStride(f, p, Iter(f, x, p), n - 1);
      FirstOfMany(f, x, p, n);
    }
  }

  /** An odd number of jumps of 2^j steps changes bit j + fixed. */
  lemma OddJumpsMove(bits: nat, mcg: bool, f: nat -> nat, j: nat, x: nat, odd: nat)
    requires Flipping(bits, mcg, f) && GoodState(bits, mcg, x) && j + FixedBits(mcg) < bits && odd % 2 == 1
    ensures Iter(f, x, odd * Pow2(j)) != x
  {
    StrideFlips(bits, mcg, f, j);
    IterStride(f, Pow2(j), x, odd);
    FlipParity(bits, mcg, Stride(f, Pow2(j)), j + FixedBits(mcg), x, odd);
  }

  lemma StrideFlips(bits: nat, mcg: bool, f: nat -> nat, j: nat)
    requires Flipping(bits, mcg, f) && j + FixedBits(mcg) < bits
    ensures AlwaysFlips(bits, mcg, Stride(f, Pow2(j)), j + FixedBits(mcg))
  {
    var g := Stride(f, Pow2(j));
    forall y: nat | GoodState(bits, mcg, y) ensures Flipped(bits, mcg, j + FixedBits(mcg), y, g(y)) {
      assert g(y) == Jump(f, j, y);
    }
  }

  lemma FirstOfMany(f: nat -> nat, x: nat, p: nat, n: nat)
    requires n > 0
    ensures Iter(f, x, n * p) == Iter(f, Iter(f, x, p), (n - 1) * p)
  {
    var rest := (n - 1) * p;
    assert n * p == p + rest;
    IterAdd(f, x, p, rest);
  }

  lemma {:induction false} OddPart(n: nat) returns (odd: nat, j: nat)
    requires n > 0
    ensures n == odd * Pow2(j) && odd % 2 == 1
  {
    if n % 2 == 1 {
      odd, j := n, 0;
    } else {
      var o', j' := OddPart(n / 2);
      odd, j := o', j' + 1;
      assert n == 2 * (o' * Pow2(j')) == o' * (2 * Pow2(j'));
    }
  }

  /** 2^(bits - fixed) steps come back to the start. */
  lemma OnePeriod(bits: nat, mcg: bool, mult: nat, plus: nat, x: nat)
    requires GoodCoefficients(mcg, mult, plus) && GoodState(bits, mcg, x) && FixedBits(mcg) <= bits
    ensures Iterate(bits, mult, plus, x, Pow2(bits - FixedBits(mcg))) == x
  {
    var i := bits - FixedBits(mcg);
    var t, o := FlipsSquared(mcg, mult, plus, i);
    JumpIsBump(bits, mult, plus, i, x);
    IdentityMap(bits, mcg, Squared(mult, plus, i).0, Squared(mult, plus, i).1, t, o, x);
  }

  lemma IdentityMap(bits: nat, mcg: bool, m: nat, p: nat, t: nat, o: nat, x: nat)
    requires FixedBits(mcg) <= bits && Flips(mcg, m, p, bits - FixedBits(mcg), t, o) && x < Pow2(bits)
    ensures Bump(bits, m, p, x) == x
  {
    if mcg {
      assert Pow2(bits) == 4 * Pow2(bits - 2) by { Pow2Add(2, bits - 2); assert Pow2(2) == 4; }
      assert 4 * Pow2(bits - 2) * t == t * Pow2(bits);
      NearIdentity(bits, t, 0, x);
    } else {
      assert 4 * Pow2(bits) * t == (4 * t) * Pow2(bits);
      NearIdentity(bits, 4 * t, o, x);
    }
  }

  lemma {:induction false} ManyPeriods(f: nat -> nat, x: nat, period: nat, q: nat)
    requires Iter(f, x, period) == x
    ensures Iter(f, x, q * period) == x
    decreases q
  {
    if q > 0 {
      ManyPeriods(f, x, period, q - 1);
      FirstOfMany(f, x, period, q);
    }
  }

  lemma PowerDivides(odd: nat, e: nat, j: nat)
    requires e <= j
    ensures (odd * Pow2(j)) % Pow2(e) == 0
  {
    Pow2Add(e, j - e);
    MultipleMod(odd, Pow2(e), Pow2(j - e));
  }

  lemma MultipleMod(x: nat, m: nat, c: nat)
    requires m > 0
    ensures (x * (m * c)) % m == 0
  {
    assert x * (m * c) == (x * c) * m;
    DivModUnique(x * (m * c), m, x * c, 0);
  }

  /** period_pow2(): the state recurs after k steps exactly when 2^(bits - fixed) divides k. */
  lemma PeriodIsExact(bits: nat, mcg: bool, mult: nat, plus: nat, x: nat, k: nat)
    requires GoodCoefficients(mcg, mult, plus) && GoodState(bits, mcg, x) && FixedBits(mcg) <= bits
    ensures Iterate(bits, mult, plus, x, k) == x <==> k % Pow2(bits - FixedBits(mcg)) == 0
  {
    if k % Pow2(bits - FixedBits(mcg)) == 0 {
      PeriodReturns(bits, mcg, mult, plus, x, k);
    } else {
      PeriodMoves(bits, mcg, mult, plus, x, k);
    }
  }

  lemma PeriodReturns(bits: nat, mcg: bool, mult: nat, plus: nat, x: nat, k: nat)
    requires GoodCoefficients(mcg, mult, plus) && GoodState(bits, mcg, x) && FixedBits(mcg) <= bits
    requires k % Pow2(bits - FixedBits(mcg)) == 0
    ensures Iterate(bits, mult, plus, x, k) == x
  {
    var q := ExactQuotient(k, Pow2(bits - FixedBits(mcg)));
    OnePeriod(bits, mcg, mult, plus, x);
    ManyPeriods(Lcg(bits, mult, plus), x, Pow2(bits - FixedBits(mcg)), q);
  }

  lemma ExactQuotient(k: nat, m: nat) returns (q: nat)
    requires m > 0 && k % m == 0
    ensures k == q * m
  {
    q := k / m;
  }

  lemma PeriodMoves(bits: nat, mcg: bool, mult: nat, plus: nat, x: nat, k: nat)
    requires GoodCoefficients(mcg, mult, plus) && GoodState(bits, mcg, x) && FixedBits(mcg) <= bits
    requires k % Pow2(bits - FixedBits(mcg)) != 0
    ensures Iterate(bits, mult, plus, x, k) != x
  {
    if k == 0 { DivModUnique(0, Pow2(bits - FixedBits(mcg)), 0, 0); }
    var odd, j := OddPart(k);
    if j >= bits - FixedBits(mcg) { PowerDivides(odd, bits - FixedBits(mcg), j); }
    LcgFlips(bits, mcg, mult, plus);
    OddJumpsMove(bits, mcg, Lcg(bits, mult, plus), j, x, odd);
  }

  // ---------------------------------------------------------------- full period, exactly when

  ghost predicate Reaches(f: nat -> nat, x: nat, y: nat) {
    exists n: nat :: Iter(f, x, n) == y
  }

  ghost predicate AllReachable(bits: nat, f: nat -> nat) {
    forall x: nat, y: nat :: x < Pow2(bits) && y < Pow2(bits) ==> Reaches(f, x, y)
  }

  ghost predicate ClosedUnder(f: nat -> nat, inside: nat -> bool) {
    forall x: nat :: inside(x) ==> inside(f(x))
  }

  lemma {:induction false} StaysInside(f: nat -> nat, inside: nat -> bool, x: nat, n: nat)
    requires ClosedUnder(f, inside) && inside(x)
    ensures inside(Iter(f, x, n))
    decreases n
  {
    if n > 0 { StaysInside(f, inside, f(x), n - 1); }
  }

  lemma ClosedSetBlocks(f: nat -> nat, inside: nat -> bool, x: nat, y: nat)
    requires ClosedUnder(f, inside) && inside(x) && !inside(y)
    ensures !Reaches(f, x, y)
  {
    forall n: nat ensures Iter(f, x, n) != y { StaysInside(f, inside, x, n); }
  }

  lemma Unreachable(bits: nat, f: nat -> nat, x: nat, y: nat)
    requires bits >= 2 && x < 4 && y < 4 && !Reaches(f, x, y)
    ensures !AllReachable(bits, f)
  {
    Pow2Monotone(2, bits);
    assert Pow2(2) == 4;
  }

  /** The residue of a step modulo 2 or 4 depends on the residue of the state only. */
  lemma BumpResidue(bits: nat, mult: nat, plus: nat, x: nat, e: nat)
    requires e <= bits
    ensures Bump(bits, mult, plus, x) % Pow2(e) == ((x % Pow2(e)) * mult + plus) % Pow2(e)
  {
    var r, y := Pow2(e), x % Pow2(e);
    Pow2Add(e, bits - e);
    ModOfMod(x * mult + plus, r, Pow2(bits - e));
    ModReduce(mult, x, plus, r);
    assert mult * y == y * mult && mult * x == x * mult;
  }

  /** An even increment keeps even states even. */
  lemma EvenIncrementStaysEven(bits: nat, mult: nat, plus: nat, x: nat)
    requires bits >= 1 && plus % 2 == 0 && x % 2 == 0
    ensures Bump(bits, mult, plus, x) % 2 == 0
  {
    BumpResidue(bits, mult, plus, x, 1);
    assert Pow2(1) == 2;
  }

  /** An odd increment with an even multiplier makes every state odd. */
  lemma EvenMultiplierMakesOdd(bits: nat, mult: nat, plus: nat, x: nat)
    requires bits >= 1 && plus % 2 == 1 && mult % 2 == 0
    ensures Bump(bits, mult, plus, x) % 2 == 1
  {
    BumpResidue(bits, mult, plus, x, 1);
    assert Pow2(1) == 2;
    assert x % 2 == 0 || x % 2 == 1;
  }

  lemma MinusOneModFour(mult: nat, plus: nat)
    requires mult % 4 == 3
    ensures ((plus % 4) * mult + plus) % 4 == 0
  {
    var q, p, c := mult / 4, plus / 4, plus % 4;
    assert c * (4 * q + 3) == 4 * (c * q) + 3 * c;
    assert c * mult + plus == 4 * (c * q + c + p);
  }

  /** A multiplier of 3 modulo 4 alternates between two residues modulo 4. */
  lemma ThreeModFourAlternates(bits: nat, mult: nat, plus: nat, x: nat)
    requires bits >= 2 && mult % 4 == 3 && (x % 4 == 0 || x % 4 == plus % 4)
    ensures var r := Bump(bits, mult, plus, x) % 4; r == 0 || r == plus % 4
  {
    BumpResidue(bits, mult, plus, x, 2);
    assert Pow2(2) == 4;
    if x % 4 == plus % 4 { MinusOneModFour(mult, plus); }
  }

  lemma StuckOnEven(bits: nat, mult: nat, plus: nat)
    requires bits >= 2 && plus % 2 == 0
    ensures !Reaches(Lcg(bits, mult, plus), 0, 1)
  {
    var f, even := Lcg(bits, mult, plus), (z: nat) => z % 2 == 0;
    forall z: nat | even(z) ensures even(f(z)) { EvenIncrementStaysEven(bits, mult, plus, z); }
    ClosedSetBlocks(f, even, 0, 1);
  }

  lemma StuckOnOdd(bits: nat, mult: nat, plus: nat)
    requires bits >= 2 && plus % 2 == 1 && mult % 2 == 0
    ensures !Reaches(Lcg(bits, mult, plus), 1, 0)
  {
    var f, odd := Lcg(bits, mult, plus), (z: nat) => z % 2 == 1;
    forall z: nat | odd(z) ensures odd(f(z)) { EvenMultiplierMakesOdd(bits, mult, plus, z); }
    ClosedSetBlocks(f, odd, 1, 0);
  }

  lemma OddModFour(m: nat)
    requires m % 2 == 1 && m % 4 != 1
    ensures m % 4 == 3
  {
    var q, r := m / 4, m % 4;
    assert m == 2 * (2 * q + r / 2) + r % 2;
  }

  lemma StuckOnTwo(bits: nat, mult: nat, plus: nat)
    requires bits >= 2 && plus % 2 == 1 && mult % 4 == 3
    ensures !Reaches(Lcg(bits, mult, plus), 0, 2)
  {
    var f, two := Lcg(bits, mult, plus), (z: nat) => z % 4 == 0 || z % 4 == plus % 4;
    forall z: nat | two(z) ensures two(f(z)) { ThreeModFourAlternates(bits, mult, plus, z); }
    ClosedSetBlocks(f, two, 0, 2);
  }

  /** Otherwise some small state cannot be reached from another one. */
  lemma StuckPair(bits: nat, mult: nat, plus: nat) returns (x: nat, y: nat)
    requires bits >= 2 && !(mult % 4 == 1 && plus % 2 == 1)
    ensures x < 4 && y < 4 && !Reaches(Lcg(bits, mult, plus), x, y)
  {
    if plus % 2 == 0 {
      StuckOnEven(bits, mult, plus);
      return 0, 1;
    }
    if mult % 2 == 0 {
      StuckOnOdd(bits, mult, plus);
      return 1, 0;
    }
    OddModFour(mult);
    StuckOnTwo(bits, mult, plus);
    return 0, 2;
  }

  lemma AnyReachable(bits: nat, mult: nat, plus: nat, x: nat, y: nat)
    requires mult % 4 == 1 && plus % 2 == 1 && x < Pow2(bits) && y < Pow2(bits)
    ensures Reaches(Lcg(bits, mult, plus), x, y)
  {
    LcgFlips(bits, false, mult, plus);
    StepsReach(bits, false, Lcg(bits, mult, plus), 0, x, y);
  }

  /** Every state is reachable from every other exactly when the increment is odd and the multiplier is
      1 modulo 4: what set_stream and the multiplier constants make sure of. */
  lemma FullPeriodCondition(bits: nat, mult: nat, plus: nat)
    requires bits >= 2
    ensures AllReachable(bits, Lcg(bits, mult, plus)) <==> mult % 4 == 1 && plus % 2 == 1
  {
    if mult % 4 == 1 && plus % 2 == 1 {
      forall x: nat, y: nat | x < Pow2(bits) && y < Pow2(bits) ensures Reaches(Lcg(bits, mult, plus), x, y) {
        AnyReachable(bits, mult, plus, x, y);
      }
    } else {
      var x, y := StuckPair(bits, mult, plus);
      Unreachable(bits, Lcg(bits, mult, plus), x, y);
    }
  }
}
