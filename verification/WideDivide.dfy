/** Division by shifting and subtracting, and the signed quotient and remainder built on it. */
module WideDivide {
  import opened Bits
  import opened WideLimbs
  import opened WideArith
  import opened WideShift

  datatype Result<T> = Ok(value: T) | DivisionByZero

  // ---------------------------------------------------------------- small steps on numbers

  method TopBitIsClear(x: seq<Limb>) returns (r: bool)
    requires x != []
    ensures r == (2 * Value(x) < Modulus(|x|))
  {
    var n := BASE_BITS * |x|;
    var top := ShiftRight(x, n - 1, false);
    var bit := Amp(top, [1]);
    r := IsZero(bit);
    ModulusIsPow2(|x|);
    ValueBound(x);
    OneLimb(1);
    TopBit(Value(x), Pow2(n - 1));
    AndMask(Value(top), 1);
  }

  lemma TopBit(v: nat, p: nat)
    requires p > 0 && v < 2 * p
    ensures v / p == if v < p then 0 else 1
  {
    DivModUnique(v, p, if v < p then 0 else 1, if v < p then v else v - p);
  }

  method Halve(x: seq<Limb>) returns (y: seq<Limb>)
    requires x != []
    ensures |y| == |x| && Value(y) == Value(x) / 2
  {
    y := ShiftRight(x, 1, false);
    assert Pow2(1) == 2;
  }

  method Double(x: seq<Limb>) returns (y: seq<Limb>)
    requires x != [] && 2 * Value(x) < Modulus(|x|)
    ensures |y| == |x| && Value(y) == 2 * Value(x)
  {
    y := ShiftLeft(x, 1);
    assert Pow2(1) == 2;
    DivModUnique(2 * Value(x), Modulus(|x|), 0, 2 * Value(x));
  }

  method SubtractExact(x: seq<Limb>, y: seq<Limb>) returns (z: seq<Limb>)
    requires |x| == |y| > 0 && Value(y) <= Value(x)
    ensures |z| == |x| && Value(z) == Value(x) - Value(y)
  {
    z := Minus(x, y);
    ValueBound(x);
    DivModUnique(Value(x) - Value(y), Modulus(|x|), 0, Value(x) - Value(y));
  }

  // ---------------------------------------------------------------- the invariant

  /** The state of the second loop. While k >= 0 the bit under trial is 2^k and the denominator is scaled with it;
      the quotient so far is h * 2^(k + 1). At k = -1 the division is finished. */
  ghost predicate Dividing(n: nat, d: nat, num: nat, den: nat, x: nat, q: nat, k: int, h: nat) {
    && k >= -1 && n == q * d + num
    && (k >= 0 ==> x == Pow2(k) && den == d * Pow2(k) && num < 2 * den && q == h * Pow2(k + 1))
    && (k == -1 ==> x == 0 && num < d)
  }

  lemma StartDividing(n: nat, d: nat, den: nat, x: nat, k: nat, m: nat)
    requires x == Pow2(k) && den == d * Pow2(k) && n < m && (den > n || 2 * den >= m)
    ensures Dividing(n, d, n, den, x, 0, k, 0)
  {
  }

  /** One trial: subtract if it fits, then move to the next lower bit. */
  lemma TrialStep(n: nat, d: nat, num: nat, den: nat, x: nat, q: nat, k: nat, h: nat) returns (h': nat)
    requires d > 0 && Dividing(n, d, num, den, x, q, k, h)
    ensures den <= num ==> Or(q, x) == q + x && Dividing(n, d, num - den, den / 2, x / 2, q + x, k - 1, h')
    ensures den > num ==> Dividing(n, d, num, den / 2, x / 2, q, k - 1, h')
  {
    HalfScaled(d, k);
    h' := 2 * h + if den <= num then 1 else 0;
    QuotientBits(h, k);
    OrDisjoint(h, Pow2(k), k + 1);
    if den <= num { SubtractedSum(q, x, d); }
  }

  lemma SubtractedSum(q: nat, x: nat, d: nat)
    ensures (q + x) * d == q * d + d * x
  {
  }

  lemma HalfScaled(d: nat, k: nat)
    ensures k > 0 ==> Pow2(k) / 2 == Pow2(k - 1) && (d * Pow2(k)) / 2 == d * Pow2(k - 1)
    ensures k > 0 ==> d * Pow2(k) == 2 * (d * Pow2(k - 1))
  {
    if k > 0 { assert d * (2 * Pow2(k - 1)) == 2 * (d * Pow2(k - 1)); }
  }

  lemma QuotientBits(h: nat, k: nat)
    ensures (2 * h) * Pow2(k) == h * Pow2(k + 1) && (2 * h + 1) * Pow2(k) == h * Pow2(k + 1) + Pow2(k)
  {
    assert h * (2 * Pow2(k)) == (2 * h) * Pow2(k);
  }

  // ---------------------------------------------------------------- the division

  /** First loop: the denominator is doubled until it exceeds the numerator or fills the top bit; x records how
      often. */
  method Align(numerator: seq<Limb>, d: seq<Limb>) returns (den: seq<Limb>, x: seq<Limb>, ghost k: nat)
    requires |d| == |numerator| > 0 && Value(d) > 0
    ensures |den| == |x| == |d| && Value(x) == Pow2(k) && Value(den) == Value(d) * Pow2(k)
    ensures Value(den) > Value(numerator) || 2 * Value(den) >= Modulus(|d|)
  {
    var n := |d|;
    den, x, k := d, Zeros(n)[0 := 1], 0;
    RangeZero(x, 1, n);
    var greater := Greater(den, numerator, false);
    var clear := TopBitIsClear(den);
    while !greater && clear
      invariant |den| == |x| == n && Value(x) == Pow2(k) && Value(den) == Value(d) * Pow2(k)
      invariant greater == (Value(den) > Value(numerator)) && clear == (2 * Value(den) < Modulus(n))
      decreases Value(numerator) - Value(den)
    {
      AlignStep(Value(d), k);
      x := Double(x);
      den := Double(den);
      k := k + 1;
      greater := Greater(den, numerator, false);
      clear := TopBitIsClear(den);
    }
  }

  lemma AlignStep(d: nat, k: nat)
    requires d > 0
    ensures Pow2(k) <= d * Pow2(k) && d * Pow2(k + 1) == 2 * (d * Pow2(k)) > d * Pow2(k)
  {
    MulLe(1, d, Pow2(k));
    assert d * (2 * Pow2(k)) == 2 * (d * Pow2(k));
  }

  /** Quotient and remainder; the numerator ends up as the remainder. */
  method Divide(numerator: seq<Limb>, denominator: seq<Limb>) returns (r: Result<(seq<Limb>, seq<Limb>)>)
    requires |denominator| == |numerator| > 0
    ensures r.DivisionByZero? <==> Value(denominator) == 0
    ensures r.Ok? ==> var (q, rem) := r.value;
                      && |q| == |rem| == |numerator|
                      && Value(numerator) == Value(q) * Value(denominator) + Value(rem)
                      && Value(rem) < Value(denominator)
  {
    var zero := IsZero(denominator);
    if zero { return DivisionByZero; }
    var den, x, k0 := Align(numerator, denominator);
    var num, quotient := numerator, Zeros(|numerator|);
    RangeZero(quotient, 0, |numerator|);
    ghost var n, d := Value(numerator), Value(denominator);
    ghost var k: int, h: nat := k0, 0;
    ValueBound(numerator);
    StartDividing(n, d, Value(den), Value(x), k0, Modulus(|numerator|));
    var done := IsZero(x);
    while !done
      invariant |num| == |den| == |x| == |quotient| == |numerator| && done == (Value(x) == 0)
      invariant Dividing(n, d, Value(num), Value(den), Value(x), Value(quotient), k, h)
      decreases k
    {
      h := TrialStep(n, d, Value(num), Value(den), Value(x), Value(quotient), k, h);
      var greater := Greater(den, num, false);
      if !greater {
        num := SubtractExact(num, den);
        quotient := Pipe(quotient, x);
      }
      x := Halve(x);
      den := Halve(den);
      k := k - 1;
      done := IsZero(x);
    }
    r := Ok((quotient, num));
  }

  // ---------------------------------------------------------------- signed quotient and remainder

  function Abs(v: int): nat {
    if v < 0 then -v else v
  }

  function Negate(negative: bool, v: int): int {
    if negative then -v else v
  }

  /** Division that rounds toward zero. */
  function TruncDiv(a: int, b: int): int
    requires b != 0
  {
    Negate((a < 0) != (b < 0), Abs(a) / Abs(b))
  }

  function TruncMod(a: int, b: int): int
    requires b != 0
  {
    Negate(a < 0, Abs(a) % Abs(b))
  }

  /** What makes them quotient and remainder: they recompose a, and the remainder is small and has the sign of a. */
  lemma TruncLaw(a: int, b: int)
    requires b != 0
    ensures TruncDiv(a, b) * b + TruncMod(a, b) == a
    ensures Abs(TruncMod(a, b)) < Abs(b) && (TruncMod(a, b) < 0 ==> a < 0) && (TruncMod(a, b) > 0 ==> a > 0)
  {
    Recompose(Abs(a), Abs(b));
    TruncAlgebra(a, b, Abs(a) / Abs(b), Abs(a) % Abs(b), TruncDiv(a, b), TruncMod(a, b));
  }

  lemma Recompose(x: nat, d: nat)
    requires d > 0
    ensures x == (x / d) * d + x % d && 0 <= x % d < d && 0 <= x / d
  {
  }

  lemma TruncAlgebra(a: int, b: int, q: nat, r: int, quotient: int, remainder: int)
    requires b != 0 && Abs(a) == q * Abs(b) + r && 0 <= r < Abs(b)
    requires quotient == Negate((a < 0) != (b < 0), q) && remainder == Negate(a < 0, r)
    ensures quotient * b + remainder == a
    ensures Abs(remainder) < Abs(b) && (remainder < 0 ==> a < 0) && (remainder > 0 ==> a > 0)
  {
    MulLe(0, q, Abs(b));
    NegateTimes((a < 0) != (b < 0), q, b);
    TimesAbs(q, b);
    TruncSigns(a, b, q * b, r, quotient * b, remainder);
  }

  lemma TruncSigns(a: int, b: int, p: int, r: int, product: int, remainder: int)
    requires Abs(a) == Negate(b < 0, p) + r && r >= 0
    requires product == Negate((a < 0) != (b < 0), p) && remainder == Negate(a < 0, r)
    ensures product + remainder == a
  {
  }

  lemma NegateTimes(negative: bool, q: int, b: int)
    ensures Negate(negative, q) * b == Negate(negative, q * b)
  {
    if negative { assert (-q) * b == -(q * b); }
  }

  lemma TimesAbs(q: int, b: int)
    ensures q * Abs(b) == Negate(b < 0, q * b)
  {
    if b < 0 { assert q * (-b) == -(q * b); }
  }

  /** The quotient never exceeds the dividend in magnitude, and equals it only for a divisor of plus or minus one. */
  lemma TruncBound(a: int, b: int)
    requires b != 0
    ensures Abs(TruncDiv(a, b)) <= Abs(a)
    ensures Abs(TruncDiv(a, b)) == Abs(a) && a != 0 ==> Abs(b) == 1
  {
    Recompose(Abs(a), Abs(b));
    QuotientShrinks(Abs(a), Abs(b), Abs(a) / Abs(b), Abs(a) % Abs(b));
  }

  lemma QuotientShrinks(a: nat, d: nat, q: int, r: int)
    requires d > 0 && a == q * d + r && 0 <= r < d
    ensures 0 <= q <= a && (q == a > 0 ==> d == 1)
  {
    QuotientSign(a, d, q, r);
    if d > 1 { MulLe(2, d, q); }
  }

  /** The only quotient that does not fit: the minimum divided by minus one. */
  ghost predicate Overflows(lhs: seq<Limb>, rhs: seq<Limb>, signed: bool) {
    signed && 2 * Signed(lhs, signed) == 0 - Modulus(|lhs|) && Signed(rhs, signed) == -1
  }

  lemma NegativeSign(s: seq<Limb>, signed: bool)
    ensures IsNegative(s, signed) <==> Signed(s, signed) < 0
  {
    ValueBound(s);
  }

  /** Quotient and remainder of the magnitudes. */
  method DivideMagnitudes(lhs: seq<Limb>, rhs: seq<Limb>, signed: bool) returns (r: Result<(seq<Limb>, seq<Limb>)>)
    requires |rhs| == |lhs| > 0
    ensures r.DivisionByZero? <==> Signed(rhs, signed) == 0
    ensures r.Ok? ==> var a, b := Abs(Signed(lhs, signed)), Abs(Signed(rhs, signed));
                      && |r.value.0| == |r.value.1| == |lhs|
                      && Value(r.value.0) == a / b && Value(r.value.1) == a % b
  {
    var numerator := MakePositive(lhs, signed);
    var denominator := MakePositive(rhs, signed);
    r := Divide(numerator, denominator);
    if r.Ok? {
      DivModUnique(Value(numerator), Value(denominator), Value(r.value.0), Value(r.value.1));
    }
  }

  /** The quotient truncated toward zero, modulo 2^N. */
  method Slash(lhs: seq<Limb>, rhs: seq<Limb>, signed: bool) returns (r: Result<seq<Limb>>)
    requires |rhs| == |lhs| > 0
    ensures r.DivisionByZero? <==> Signed(rhs, signed) == 0
    ensures r.Ok? ==> |r.value| == |lhs|
                      && Value(r.value) == TruncDiv(Signed(lhs, signed), Signed(rhs, signed)) % Modulus(|lhs|)
  {
    var division := DivideMagnitudes(lhs, rhs, signed);
    if division.DivisionByZero? { return DivisionByZero; }
    var quotient := division.value.0;
    NegativeSign(lhs, signed);
    NegativeSign(rhs, signed);
    if IsNegative(rhs, signed) != IsNegative(lhs, signed) {
      quotient := UnaryMinus(quotient);
    } else {
      SmallValue(quotient);
    }
    r := Ok(quotient);
  }

  /** The remainder with the sign of the dividend. */
  method Percent(lhs: seq<Limb>, rhs: seq<Limb>, signed: bool) returns (r: Result<seq<Limb>>)
    requires |rhs| == |lhs| > 0
    ensures r.DivisionByZero? <==> Signed(rhs, signed) == 0
    ensures r.Ok? ==> |r.value| == |lhs|
                      && Value(r.value) == TruncMod(Signed(lhs, signed), Signed(rhs, signed)) % Modulus(|lhs|)
  {
    var division := DivideMagnitudes(lhs, rhs, signed);
    if division.DivisionByZero? { return DivisionByZero; }
    var remainder := division.value.1;
    NegativeSign(lhs, signed);
    if IsNegative(lhs, signed) {
      remainder := UnaryMinus(remainder);
    } else {
      SmallValue(remainder);
    }
    r := Ok(remainder);
  }

  /** Facts about the truncated quotient t of a by b, without the division. */
  ghost predicate QuotientOf(t: int, a: int, b: int) {
    && Abs(t) <= Abs(a) && (Abs(t) == Abs(a) && a != 0 ==> Abs(b) == 1)
    && (a >= 0 && b >= 0 ==> t >= 0) && (a < 0 && b > 0 ==> t <= 0) && (b == -1 ==> t == -a)
  }

  lemma TruncIsQuotient(a: int, b: int)
    requires b != 0
    ensures QuotientOf(TruncDiv(a, b), a, b)
  {
    TruncBound(a, b);
    if b == -1 { assert Abs(a) / Abs(b) == Abs(a); }
  }

  lemma QuotientFits(lhs: seq<Limb>, rhs: seq<Limb>, signed: bool, q: seq<Limb>, t: int)
    requires |q| == |rhs| == |lhs| > 0 && QuotientOf(t, Signed(lhs, signed), Signed(rhs, signed))
    requires Value(q) == t % Modulus(|lhs|)
    ensures Signed(q, signed) == t <==> !Overflows(lhs, rhs, signed)
    ensures Overflows(lhs, rhs, signed) ==> q == lhs
  {
    var m := Modulus(|lhs|);
    if !signed {
      ValueBound(lhs);
      DivModUnique(t, m, 0, t);
    } else {
      SignedBound(lhs);
      if Overflows(lhs, rhs, signed) {
        OverflowIsMinimum(lhs, q, t);
      } else {
        SignedUnique(q, t);
      }
    }
  }

  lemma OverflowIsMinimum(lhs: seq<Limb>, q: seq<Limb>, t: int)
    requires |q| == |lhs| > 0 && 2 * Signed(lhs, true) == 0 - Modulus(|lhs|) && t == -Signed(lhs, true)
    requires Value(q) == t % Modulus(|lhs|)
    ensures q == lhs && Signed(lhs, true) < 0
  {
    var m := Modulus(|lhs|);
    SignedResidue(lhs, true);
    DivModUnique(t, m, 0, t);
    DivModUnique(-t, m, -1, t);
    ValueInjective(q, lhs);
  }

  /** Read back with the type's sign, the quotient is exact but for the one overflow, where it is the minimum. */
  lemma SlashIsExact(lhs: seq<Limb>, rhs: seq<Limb>, signed: bool, q: seq<Limb>)
    requires |q| == |rhs| == |lhs| > 0 && Signed(rhs, signed) != 0
    requires Value(q) == TruncDiv(Signed(lhs, signed), Signed(rhs, signed)) % Modulus(|lhs|)
    ensures Signed(q, signed) == TruncDiv(Signed(lhs, signed), Signed(rhs, signed)) <==> !Overflows(lhs, rhs, signed)
    ensures Overflows(lhs, rhs, signed) ==> q == lhs
  {
    TruncIsQuotient(Signed(lhs, signed), Signed(rhs, signed));
    QuotientFits(lhs, rhs, signed, q, TruncDiv(Signed(lhs, signed), Signed(rhs, signed)));
  }

  lemma PercentIsExact(lhs: seq<Limb>, rhs: seq<Limb>, signed: bool, r: seq<Limb>)
    requires |r| == |rhs| == |lhs| > 0 && Signed(rhs, signed) != 0
    requires Value(r) == TruncMod(Signed(lhs, signed), Signed(rhs, signed)) % Modulus(|lhs|)
    ensures Signed(r, signed) == TruncMod(Signed(lhs, signed), Signed(rhs, signed))
  {
    var a, b, m := Signed(lhs, signed), Signed(rhs, signed), Modulus(|lhs|);
    TruncLaw(a, b);
    if signed {
      SignedBound(rhs);
      SignedUnique(r, TruncMod(a, b));
    } else {
      ValueBound(rhs);
      DivModUnique(TruncMod(a, b), m, 0, TruncMod(a, b));
    }
  }

  /** (a / b) * b + a % b is a again modulo 2^N, for every dividend and divisor, the minimum included. */
  lemma QuotientAndRemainder(lhs: seq<Limb>, rhs: seq<Limb>, signed: bool, q: seq<Limb>, r: seq<Limb>)
    requires |q| == |r| == |rhs| == |lhs| > 0 && Signed(rhs, signed) != 0
    requires Value(q) == TruncDiv(Signed(lhs, signed), Signed(rhs, signed)) % Modulus(|lhs|)
    requires Value(r) == TruncMod(Signed(lhs, signed), Signed(rhs, signed)) % Modulus(|lhs|)
    ensures (Value(q) * Value(rhs) + Value(r)) % Modulus(|lhs|) == Value(lhs)
  {
    var a, b, m := Signed(lhs, signed), Signed(rhs, signed), Modulus(|lhs|);
    TruncLaw(a, b);
    SignedResidue(lhs, signed);
    SignedResidue(rhs, signed);
    ResidueLaw(TruncDiv(a, b), b, TruncMod(a, b), m);
  }

  lemma ResidueLaw(q: int, b: int, r: int, m: nat)
    requires m > 0
    ensures ((q % m) * (b % m) + r % m) % m == (q * b + r) % m
  {
    var q', b', r' := q / m, b / m, r / m;
    ResidueAlgebra(q, b, r, m, q', b', r', q % m, b % m, r % m);
    ModAddMultiple((q % m) * (b % m) + r % m, q' * b + (q % m) * b' + r', m);
  }

  lemma ResidueAlgebra(q: int, b: int, r: int, m: int, q': int, b': int, r': int, q0: int, b0: int, r0: int)
    requires q == q' * m + q0 && b == b' * m + b0 && r == r' * m + r0
    ensures q * b + r == (q0 * b0 + r0) + (q' * b + q0 * b' + r') * m
  {
    assert q * b == q' * m * b + q0 * b;
    assert q0 * b == q0 * (b' * m) + q0 * b0;
  }
}
