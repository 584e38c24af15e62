/** Exact comparison of a binary floating point number with an integer of any width, from the bit pattern alone. */
module DecomposedFloat {
  import opened Bits

  /** A binary interchange format: one sign bit, then the biased exponent, then the mantissa. */
  datatype Format = Format(exponentBits: nat, mantissaBits: nat) {
    predicate Valid() { exponentBits >= 2 && mantissaBits >= 1 }

    function Width(): nat { exponentBits + mantissaBits + 1 }

    function Bias(): (bias: nat)
      requires Valid()
      ensures bias >= 1
    {
      Pow2(exponentBits - 1) - 1
    }
  }

  const FLOAT32 := Format(8, 23)
  const FLOAT64 := Format(11, 52)

  /** An integer type: its width in bits and whether it has a sign. */
  datatype IntType = IntType(width: nat, signed: bool) {
    predicate Valid() { width >= 1 }

    function ValueBits(): nat
      requires Valid()
    {
      if signed then width - 1 else width
    }

    function Lowest(): int
      requires Valid()
    {
      if signed then 0 - Pow2(ValueBits()) else 0
    }

    predicate Contains(v: int)
      requires Valid()
    {
      Lowest() <= v < Pow2(ValueBits())
    }
  }

  // ---------------------------------------------------------------- the fields of a bit pattern

  predicate IsNegative(f: Format, x: nat) {
    Shr(x, f.Width() - 1) != 0
  }

  function Exponent(f: Format, x: nat): nat {
    And(Shr(x, f.mantissaBits), Shr(Pow2(f.exponentBits + 1) - 1, 1))
  }

  function NormalizedExponent(f: Format, x: nat): int
    requires f.Valid()
  {
    Exponent(f, x) - f.Bias()
  }

  function Mantissa(f: Format, x: nat): nat {
    And(x, Pow2(f.mantissaBits) - 1)
  }

  function Sign(f: Format, x: nat): int {
    if Exponent(f, x) == 0 && Mantissa(f, x) == 0 then 0 else if IsNegative(f, x) then -1 else 1
  }

  predicate IsIntegerInRepresentableRange(f: Format, x: nat)
    requires f.Valid()
  {
    var e := NormalizedExponent(f, x);
    x == 0 || (0 <= e <= f.mantissaBits && And(Mantissa(f, x), Pow2(f.mantissaBits - e) - 1) == 0)
  }

  lemma FieldPowers()
    ensures Pow2(8) == 0x100 && Pow2(11) == 0x800 && Pow2(23) == 0x80_0000 && Pow2(31) == 0x8000_0000
    ensures Pow2(52) == 0x10_0000_0000_0000 && Pow2(63) == 0x8000_0000_0000_0000
    ensures Pow2(7) == 0x80 && Pow2(10) == 0x400
  {
    assert Pow2(7) == 0x80 && Pow2(8) == 0x100 && Pow2(10) == 0x400 && Pow2(11) == 0x800 && Pow2(12) == 0x1000;
    Pow2Add(11, 12);
    Pow2Add(23, 8);
    Pow2Add(12, 8);
    Pow2Add(20, 11);
    Pow2Add(31, 21);
    Pow2Add(10, 11);
    Pow2Add(52, 11);
  }

  lemma FieldsByShift(f: Format, x: nat)
    ensures IsNegative(f, x) <==> x / Pow2(f.exponentBits + f.mantissaBits) != 0
    ensures Exponent(f, x) == (x / Pow2(f.mantissaBits)) % Pow2(f.exponentBits)
    ensures Mantissa(f, x) == x % Pow2(f.mantissaBits)
  {
    ShrIsDiv(x, f.exponentBits + f.mantissaBits);
    ShrIsDiv(x, f.mantissaBits);
    ShrIsDiv(Pow2(f.exponentBits + 1) - 1, 1);
    assert Pow2(1) == 2;
    AndMask(x / Pow2(f.mantissaBits), f.exponentBits);
    AndMask(x, f.mantissaBits);
  }

  /** The fields of the two formats in use, by division; the exponents are biased by 127 and 1023. */
  lemma FieldsOfFloats(x: nat)
    ensures FLOAT32.Valid() && FLOAT64.Valid()
    ensures IsNegative(FLOAT32, x) <==> x / 0x8000_0000 != 0
    ensures NormalizedExponent(FLOAT32, x) == (x / 0x80_0000) % 0x100 - 127
    ensures Mantissa(FLOAT32, x) == x % 0x80_0000
    ensures IsNegative(FLOAT64, x) <==> x / 0x8000_0000_0000_0000 != 0
    ensures NormalizedExponent(FLOAT64, x) == (x / 0x10_0000_0000_0000) % 0x800 - 1023
    ensures Mantissa(FLOAT64, x) == x % 0x10_0000_0000_0000
  {
    FieldPowers();
    FieldsByShift(FLOAT32, x);
    FieldsByShift(FLOAT64, x);
  }

  // ---------------------------------------------------------------- the comparison

  /** Shift to the left in a word of u bits. */
  function Shl(x: nat, s: nat, u: nat): nat {
    (x * Pow2(s)) % Pow2(u)
  }

  /** The order of the magnitudes: a float of normalized exponent e against m, computed in words of u bits; top
      bounds the octaves m can be in. */
  function CompareMagnitude(f: Format, x: nat, e: nat, m: nat, u: nat, top: nat): int
    requires f.Valid()
  {
    if m < Shl(1, e, u) then 1
    else if e + 1 < top && m >= Shl(1, e + 1, u) then -1
    else
      var alwaysInteger := e >= f.mantissaBits;
      var a := if alwaysInteger then Shl(Mantissa(f, x), e - f.mantissaBits, u)
               else Shr(Mantissa(f, x), f.mantissaBits - e);
      var b := m - Shl(1, e, u);
      if a < b then -1
      else if a > b then 1
      else if alwaysInteger || And(Mantissa(f, x), Pow2(f.mantissaBits - e) - 1) == 0 then 0
      else 1
  }

  function Compare(f: Format, x: nat, t: IntType, rhs: int): int
    requires f.Valid() && t.Valid() && t.Contains(rhs)
  {
    var e := NormalizedExponent(f, x);
    var negative := IsNegative(f, x);
    if rhs == 0 then Sign(f, x)
    else if negative && rhs > 0 then -1
    else if !negative && rhs < 0 then 1
    else if e < 0 then
      if !negative then (if rhs > 0 then -1 else 1) else (if rhs >= 0 then -1 else 1)
    else if t.signed && rhs == t.Lowest() then
      if e < t.ValueBits() then 1
      else if e > t.ValueBits() then -1
      else if Mantissa(f, x) == 0 then 0 else -1
    else if e >= t.ValueBits() then (if negative then -1 else 1)
    else
      var u := if t.width > f.Width() then t.width else f.Width();
      var r := CompareMagnitude(f, x, e, if rhs < 0 then -rhs else rhs, u, t.ValueBits());
      if negative then -r else r
  }

  // ---------------------------------------------------------------- what a bit pattern stands for

  /** The float is Scaled / Unit in magnitude. An exponent of all ones is read as one more binade. */
  function Scaled(f: Format, x: nat): nat {
    var exponent, mantissa := Exponent(f, x), Mantissa(f, x);
    if exponent == 0 then mantissa else (Pow2(f.mantissaBits) + mantissa) * Pow2(exponent - 1)
  }

  function Unit(f: Format): nat
    requires f.Valid()
  {
    Pow2(f.Bias() + f.mantissaBits - 1)
  }

  function SignedScaled(f: Format, x: nat): int {
    if IsNegative(f, x) then 0 - Scaled(f, x) else Scaled(f, x)
  }

  function Value(f: Format, x: nat): real
    requires f.Valid()
  {
    SignedScaled(f, x) as real / Unit(f) as real
  }

  function Signum(v: int): int {
    if v < 0 then -1 else if v == 0 then 0 else 1
  }

  function RealSignum(v: real): int {
    if v < 0.0 then -1 else if v == 0.0 then 0 else 1
  }

  // ---------------------------------------------------------------- proofs

  lemma FieldBounds(f: Format, x: nat)
    ensures Mantissa(f, x) == x % Pow2(f.mantissaBits) < Pow2(f.mantissaBits)
    ensures Exponent(f, x) < Pow2(f.exponentBits)
  {
    AndMask(x, f.mantissaBits);
    assert Shr(Pow2(f.exponentBits + 1) - 1, 1) == Pow2(f.exponentBits) - 1;
    AndAtMost(Shr(x, f.mantissaBits), Pow2(f.exponentBits) - 1);
  }

  lemma ShlExact(x: nat, n: nat, s: nat, u: nat)
    requires x < Pow2(n) && n + s <= u
    ensures Shl(x, s, u) == x * Pow2(s) < Pow2(n + s)
  {
    Pow2Add(n, s);
    MulLe(x + 1, Pow2(n), Pow2(s));
    assert (x + 1) * Pow2(s) == x * Pow2(s) + Pow2(s);
    Pow2Monotone(n + s, u);
    SmallMod(x * Pow2(s), Pow2(u));
  }

  lemma SmallMod(x: nat, m: nat)
    requires x < m
    ensures x % m == x
  {
  }

  lemma ShlOne(s: nat, u: nat)
    requires s < u
    ensures Shl(1, s, u) == Pow2(s)
  {
    ShlExact(1, 1, s, u);
  }

  /** In the binade e >= 0 both Scaled and Unit are multiples of one power of two: the comparison is one between
      (2^mb + mantissa) * p and m * q. */
  lemma CommonFactor(f: Format, x: nat, e: nat) returns (p: nat, q: nat, t: nat)
    requires f.Valid() && NormalizedExponent(f, x) == e
    ensures t > 0 && Scaled(f, x) == ((Pow2(f.mantissaBits) + Mantissa(f, x)) * p) * t && Unit(f) == q * t
    ensures e >= f.mantissaBits ==> p == Pow2(e - f.mantissaBits) && q == 1
    ensures e < f.mantissaBits ==> p == 1 && q == Pow2(f.mantissaBits - e)
  {
    var mb, bias := f.mantissaBits, f.Bias();
    var s := Pow2(mb) + Mantissa(f, x);
    assert Scaled(f, x) == s * Pow2(e + bias - 1);
    if e >= mb {
      p, q, t := Pow2(e - mb), 1, Pow2(bias + mb - 1);
      Pow2Add(e - mb, bias + mb - 1);
      MulAssociative(s, p, t);
    } else {
      p, q, t := 1, Pow2(mb - e), Pow2(e + bias - 1);
      Pow2Add(mb - e, e + bias - 1);
    }
  }

  lemma CancelSign(a: int, b: int, t: nat)
    requires t > 0
    ensures Signum(a * t - b * t) == Signum(a - b)
  {
    assert a * t - b * t == (a - b) * t;
    if a > b { MulLe(1, a - b, t); } else if a < b { MulLe(a - b, -1, t); }
  }

  /** Three-way comparison of 2^mb + mant, times p, against m * q, octave by octave. */
  lemma SameOctaveInteger(mb: nat, mant: nat, e: nat, m: nat)
    requires e >= mb
    ensures Signum((Pow2(mb) + mant) * Pow2(e - mb) - m) == Signum(mant * Pow2(e - mb) - (m - Pow2(e)))
  {
    Pow2Add(mb, e - mb);
    assert (Pow2(mb) + mant) * Pow2(e - mb) == Pow2(mb) * Pow2(e - mb) + mant * Pow2(e - mb);
  }

  lemma SameOctaveFraction(mb: nat, mant: nat, e: nat, m: nat)
    requires e < mb && m >= Pow2(e)
    ensures var q, b := Pow2(mb - e), m - Pow2(e);
            Signum(Pow2(mb) + mant - m * q)
            == if mant / q < b then -1 else if mant / q > b then 1 else if mant % q == 0 then 0 else 1
  {
    var q, b := Pow2(mb - e), m - Pow2(e);
    Pow2Add(e, mb - e);
    assert m * q == Pow2(e) * q + b * q by { assert m == Pow2(e) + b; Distribute(Pow2(e), b, q); }
    DivisionOrder(mant, b, q);
  }

  lemma Distribute(x: int, y: int, z: int)
    ensures (x + y) * z == x * z + y * z
  {
  }

  lemma DivisionOrder(a: nat, b: nat, q: nat)
    requires q > 0
    ensures Signum(a - b * q) == if a / q < b then -1 else if a / q > b then 1 else if a % q == 0 then 0 else 1
  {
    var d, r := a / q, a % q;
    assert a == d * q + r;
    if d < b { MulLe(d + 1, b, q); Distribute(d, 1, q); }
    else if d > b { MulLe(b + 1, d, q); Distribute(b, 1, q); }
  }

  /** The whole magnitude lies in its octave: 2^e <= Scaled / Unit < 2^(e + 1). */
  lemma OctaveOfFloat(f: Format, x: nat, e: nat)
    requires f.Valid() && NormalizedExponent(f, x) == e
    ensures Pow2(e) * Unit(f) <= Scaled(f, x) < Pow2(e + 1) * Unit(f)
  {
    var p, q, t := CommonFactor(f, x, e);
    FieldBounds(f, x);
    var mb := f.mantissaBits;
    var s := Pow2(mb) + Mantissa(f, x);
    assert Pow2(e) * q == Pow2(mb) * p by {
      if e >= mb { Pow2Add(mb, e - mb); } else { Pow2Add(e, mb - e); }
    }
    OctaveAlgebra(Pow2(e), Pow2(mb), s, p, q, t);
  }

  lemma OctaveAlgebra(o: nat, c: nat, s: nat, p: nat, q: nat, t: nat)
    requires o * q == c * p && c <= s < 2 * c && p > 0 && t > 0
    ensures o * (q * t) <= (s * p) * t < (2 * o) * (q * t)
  {
    MulAssociative(o, q, t);
    MulLe(c, s, p);
    MulLe(s + 1, 2 * c, p);
    Distribute(s, 1, p);
    assert (2 * o) * (q * t) == 2 * (o * (q * t));
    MulLe(c * p, s * p, t);
    assert (2 * c) * p == 2 * (c * p);
    MulLe(s * p + 1, 2 * (c * p), t);
    Distribute(s * p, 1, t);
    assert (2 * (c * p)) * t == 2 * ((c * p) * t);
  }

  lemma MagnitudeIsExact(f: Format, x: nat, e: nat, m: nat, u: nat, top: nat)
    requires f.Valid() && NormalizedExponent(f, x) == e && e < top <= u && f.mantissaBits < u && m < Pow2(top)
    ensures CompareMagnitude(f, x, e, m, u, top) == Signum(Scaled(f, x) - m * Unit(f))
  {
    ShlOne(e, u);
    OctaveOfFloat(f, x, e);
    if m < Pow2(e) {
      MulLe(m + 1, Pow2(e), Unit(f));
      Distribute(m, 1, Unit(f));
    } else if e + 1 < top && m >= Shl(1, e + 1, u) {
      ShlOne(e + 1, u);
      MulLe(Pow2(e + 1), m, Unit(f));
    } else {
      SameOctave(f, x, e, m, u, top);
    }
  }

  /** Removing the common factor leaves the sign of the difference alone. */
  lemma ReducedSign(f: Format, x: nat, e: nat, m: nat)
    requires f.Valid() && NormalizedExponent(f, x) == e
    ensures var mb, s := f.mantissaBits, Pow2(f.mantissaBits) + Mantissa(f, x);
            Signum(Scaled(f, x) - m * Unit(f))
            == if e >= mb then Signum(s * Pow2(e - mb) - m) else Signum(s - m * Pow2(mb - e))
  {
    var p, q, t := CommonFactor(f, x, e);
    var s := Pow2(f.mantissaBits) + Mantissa(f, x);
    MulAssociative(m, q, t);
    CancelSign(s * p, m * q, t);
  }

  lemma SameOctave(f: Format, x: nat, e: nat, m: nat, u: nat, top: nat)
    requires f.Valid() && NormalizedExponent(f, x) == e && e < u && f.mantissaBits < u
    requires Shl(1, e, u) == Pow2(e) <= m
    requires !(e + 1 < top && m >= Shl(1, e + 1, u))
    ensures CompareMagnitude(f, x, e, m, u, top) == Signum(Scaled(f, x) - m * Unit(f))
  {
    var mb, mant := f.mantissaBits, Mantissa(f, x);
    ReducedSign(f, x, e, m);
    if e >= mb {
      assert mant < Pow2(mb) by { FieldBounds(f, x); }
      ShlExact(mant, mb, e - mb, u);
      SameOctaveInteger(mb, mant, e, m);
    } else {
      MaskedFraction(mb, mant, e, m);
    }
  }

  lemma MaskedFraction(mb: nat, mant: nat, e: nat, m: nat)
    requires e < mb && m >= Pow2(e)
    ensures var a, b := Shr(mant, mb - e), m - Pow2(e);
            Signum(Pow2(mb) + mant - m * Pow2(mb - e))
            == if a < b then -1 else if a > b then 1 else if And(mant, Pow2(mb - e) - 1) == 0 then 0 else 1
  {
    ShrIsDiv(mant, mb - e);
    AndMask(mant, mb - e);
    SameOctaveFraction(mb, mant, e, m);
  }

  lemma FractionIsBelowOne(f: Format, x: nat)
    requires f.Valid() && NormalizedExponent(f, x) < 0
    ensures Scaled(f, x) < Unit(f)
  {
    FieldBounds(f, x);
    var exponent, mb, bias := Exponent(f, x), f.mantissaBits, f.Bias();
    if exponent == 0 {
      Pow2Monotone(mb, bias + mb - 1);
    } else {
      Pow2Add(mb + 1, exponent - 1);
      MulLe(Pow2(mb) + Mantissa(f, x) + 1, Pow2(mb + 1), Pow2(exponent - 1));
      Distribute(Pow2(mb) + Mantissa(f, x), 1, Pow2(exponent - 1));
      Pow2Monotone(mb + exponent, bias + mb - 1);
    }
  }

  function Magnitude(v: int): nat {
    if v < 0 then -v else v
  }

  /** A float of another sign than the integer, or with a magnitude below one, is settled by the sign. */
  lemma SettledBySign(f: Format, x: nat, rhs: int)
    requires f.Valid() && rhs != 0
    requires IsNegative(f, x) != (rhs < 0) || NormalizedExponent(f, x) < 0
    ensures Signum(SignedScaled(f, x) - rhs * Unit(f)) == if rhs > 0 then -1 else 1
  {
    if NormalizedExponent(f, x) < 0 { FractionIsBelowOne(f, x); }
    if rhs > 0 { MulLe(1, rhs, Unit(f)); } else { MulLe(rhs, -1, Unit(f)); }
  }

  /** With equal signs the order is that of the magnitudes, turned round for negative numbers. */
  lemma SameSign(f: Format, x: nat, rhs: int)
    requires f.Valid() && IsNegative(f, x) == (rhs < 0)
    ensures var r := Signum(Scaled(f, x) - Magnitude(rhs) * Unit(f));
            Signum(SignedScaled(f, x) - rhs * Unit(f)) == if IsNegative(f, x) then -r else r
  {
    if rhs < 0 { assert (-rhs) * Unit(f) == -(rhs * Unit(f)); }
  }

  /** An integer of a smaller octave, down to the whole range of a type, has the smaller magnitude. */
  lemma LargerThanAll(f: Format, x: nat, e: nat, m: nat)
    requires f.Valid() && NormalizedExponent(f, x) == e && m < Pow2(e)
    ensures Signum(Scaled(f, x) - m * Unit(f)) == 1
  {
    OctaveOfFloat(f, x, e);
    MulLe(m + 1, Pow2(e), Unit(f));
    Distribute(m, 1, Unit(f));
  }

  lemma SmallerThanAll(f: Format, x: nat, e: nat, m: nat)
    requires f.Valid() && NormalizedExponent(f, x) == e && m >= Pow2(e + 1)
    ensures Signum(Scaled(f, x) - m * Unit(f)) == -1
  {
    OctaveOfFloat(f, x, e);
    MulLe(Pow2(e + 1), m, Unit(f));
  }

  lemma AgainstPowerOfTwo(f: Format, x: nat, e: nat)
    requires f.Valid() && NormalizedExponent(f, x) == e
    ensures Signum(Scaled(f, x) - Pow2(e) * Unit(f)) == if Mantissa(f, x) == 0 then 0 else 1
  {
    var mb, mant := f.mantissaBits, Mantissa(f, x);
    ReducedSign(f, x, e, Pow2(e));
    if e >= mb {
      SameOctaveInteger(mb, mant, e, Pow2(e));
      if mant > 0 { MulLe(1, mant, Pow2(e - mb)); }
    } else {
      Pow2Add(e, mb - e);
    }
  }

  lemma AgainstLowest(f: Format, x: nat, e: nat, v: nat)
    requires f.Valid() && NormalizedExponent(f, x) == e
    ensures Signum(Scaled(f, x) - Pow2(v) * Unit(f))
            == if e < v then -1 else if e > v then 1 else if Mantissa(f, x) == 0 then 0 else 1
  {
    if e < v {
      Pow2Monotone(e + 1, v);
      SmallerThanAll(f, x, e, Pow2(v));
    } else if e > v {
      Pow2Monotone(v, e);
      LargerThanAll(f, x, e, Pow2(v));
    } else {
      AgainstPowerOfTwo(f, x, e);
    }
  }

  /** The central result, over every bit pattern and every value of every integer type: the comparison has the
      sign of the exact difference, both sides scaled by Unit. */
  lemma CompareIsExact(f: Format, x: nat, t: IntType, rhs: int)
    requires f.Valid() && t.Valid() && t.Contains(rhs)
    ensures Compare(f, x, t, rhs) == Signum(SignedScaled(f, x) - rhs * Unit(f))
  {
    var e, m := NormalizedExponent(f, x), Magnitude(rhs);
    if rhs == 0 {
      SignIsExact(f, x);
    } else if IsNegative(f, x) != (rhs < 0) || e < 0 {
      SettledBySign(f, x, rhs);
    } else {
      SameSign(f, x, rhs);
      if t.signed && rhs == t.Lowest() {
        AgainstLowest(f, x, e, t.ValueBits());
      } else if e >= t.ValueBits() {
        Pow2Monotone(t.ValueBits(), e);
        LargerThanAll(f, x, e, m);
      } else {
        var u := if t.width > f.Width() then t.width else f.Width();
        MagnitudeIsExact(f, x, e, m, u, t.ValueBits());
      }
    }
  }

  lemma SignIsExact(f: Format, x: nat)
    ensures Sign(f, x) == Signum(SignedScaled(f, x))
  {
    if Exponent(f, x) != 0 { MulLe(1, Pow2(f.mantissaBits) + Mantissa(f, x), Pow2(Exponent(f, x) - 1)); }
  }

  /** The same over the real numbers: for every finite float, the sign of float minus integer. */
  lemma CompareIsSignOfDifference(f: Format, x: nat, t: IntType, rhs: int)
    requires f.Valid() && t.Valid() && t.Contains(rhs)
    ensures Compare(f, x, t, rhs) == RealSignum(Value(f, x) - rhs as real)
  {
    CompareIsExact(f, x, t, rhs);
    RealDifference(SignedScaled(f, x), Unit(f), rhs);
  }

  lemma RealDifference(a: int, u: nat, r: int)
    requires u > 0
    ensures Signum(a - r * u) == RealSignum(a as real / u as real - r as real)
  {
    var q, w := a as real / u as real, u as real;
    assert q * w == a as real;
    assert (q - r as real) * w == (a - r * u) as real;
  }

  // ---------------------------------------------------------------- infinities

  ghost predicate IsInfinite(f: Format, x: nat) {
    Exponent(f, x) == Pow2(f.exponentBits) - 1 && Mantissa(f, x) == 0
  }

  /** An infinity compares as plus or minus 2^(2^(exponentBits - 1)). It is ordered beyond rhs exactly when rhs
      lies strictly within that bound on its side. */
  lemma InfinityComparesCorrectly(f: Format, x: nat, t: IntType, rhs: int)
    requires f.Valid() && t.Valid() && t.Contains(rhs) && IsInfinite(f, x)
    ensures var bound := Pow2(Pow2(f.exponentBits - 1));
            Compare(f, x, t, rhs) == (if IsNegative(f, x) then -1 else 1)
            <==> if IsNegative(f, x) then rhs + bound > 0 else rhs < bound
  {
    var e: nat := Pow2(f.exponentBits - 1);
    assert NormalizedExponent(f, x) == e;
    CompareIsExact(f, x, t, rhs);
    AgainstPowerOfTwo(f, x, e);
    var b: int := if IsNegative(f, x) then -1 else 1;
    assert SignedScaled(f, x) == (b * Pow2(e)) * Unit(f) by {
      assert Scaled(f, x) == Pow2(e) * Unit(f);
      MulAssociative(b, Pow2(e), Unit(f));
    }
    CancelSign(b * Pow2(e), rhs, Unit(f));
  }

  /** Hence infinities are ordered beyond every integer of at most 2^(exponentBits - 1) bits. */
  lemma InfinityBeyondNarrowIntegers(f: Format, x: nat, t: IntType, rhs: int)
    requires f.Valid() && t.Valid() && t.Contains(rhs) && IsInfinite(f, x) && t.width <= Pow2(f.exponentBits - 1)
    ensures Compare(f, x, t, rhs) == if IsNegative(f, x) then -1 else 1
  {
    InfinityComparesCorrectly(f, x, t, rhs);
    Pow2Monotone(t.ValueBits(), Pow2(f.exponentBits - 1));
  }

  /** Beyond that width the claim fails: an infinity and the integer 2^(2^(exponentBits - 1)) compare as equal, as
      for 32-bit floats and 2^128 in a 256-bit integer. */
  lemma InfinityEqualsItsBound(f: Format, t: IntType)
    requires f.Valid() && t.Valid() && t.ValueBits() > Pow2(f.exponentBits - 1)
    ensures var inf, bound := Encode(f, false, Pow2(f.exponentBits) - 1, 0), Pow2(Pow2(f.exponentBits - 1));
            IsInfinite(f, inf) && !IsNegative(f, inf) && t.Contains(bound) && Compare(f, inf, t, bound) == 0
  {
    FieldsOfEncode(f, false, Pow2(f.exponentBits) - 1, 0);
    Pow2Monotone(Pow2(f.exponentBits - 1), t.ValueBits());
    EqualAtBound(f, Encode(f, false, Pow2(f.exponentBits) - 1, 0), t, Pow2(f.exponentBits - 1));
  }

  lemma EqualAtBound(f: Format, inf: nat, t: IntType, e: nat)
    requires f.Valid() && t.Valid() && e == Pow2(f.exponentBits - 1) && t.Contains(Pow2(e))
    requires IsInfinite(f, inf) && !IsNegative(f, inf)
    ensures Compare(f, inf, t, Pow2(e)) == 0
  {
    CompareIsExact(f, inf, t, Pow2(e));
    AgainstPowerOfTwo(f, inf, e);
  }

  /** For the two formats in use: a 32-bit infinity is right against every integer of at most 128 bits, a 64-bit one
      against every integer of at most 1024 bits, so against all there are. */
  lemma InfinitiesOfFloats(f: Format, x: nat, t: IntType, rhs: int)
    requires (f == FLOAT32 && t.width <= 128) || (f == FLOAT64 && t.width <= 1024)
    requires t.Valid() && t.Contains(rhs) && IsInfinite(f, x)
    ensures f.Valid() && Compare(f, x, t, rhs) == if IsNegative(f, x) then -1 else 1
  {
    InfinityBeyondNarrowIntegers(f, x, t, rhs);
  }

  lemma Float32Octaves(f: Format)
    requires f == FLOAT32
    ensures Pow2(f.exponentBits - 1) == 128
  {
    assert f.exponentBits - 1 == 7 && Pow2(7) == 128;
  }

  /** Against the 256-bit integers a 32-bit infinity is not: it equals one of them. */
  lemma Float32InfinityEqualsInteger(f: Format, t: IntType) returns (inf: nat, rhs: int)
    requires f == FLOAT32 && t.width == 256
    ensures f.Valid() && t.Contains(rhs) && IsInfinite(f, inf) && Compare(f, inf, t, rhs) == 0
  {
    Float32Octaves(f);
    InfinityEqualsItsBound(f, t);
    inf, rhs := Encode(f, false, Pow2(f.exponentBits) - 1, 0), Pow2(Pow2(f.exponentBits - 1));
  }

  // ---------------------------------------------------------------- building a pattern from its fields

  function Encode(f: Format, negative: bool, exponent: nat, mantissa: nat): nat {
    ((if negative then Pow2(f.exponentBits) else 0) + exponent) * Pow2(f.mantissaBits) + mantissa
  }

  /** The accessors take apart what Encode puts together. */
  lemma FieldsOfEncode(f: Format, negative: bool, exponent: nat, mantissa: nat)
    requires exponent < Pow2(f.exponentBits) && mantissa < Pow2(f.mantissaBits)
    ensures var x := Encode(f, negative, exponent, mantissa);
            IsNegative(f, x) == negative && Exponent(f, x) == exponent && Mantissa(f, x) == mantissa
            && x < Pow2(f.Width())
  {
    var p, o, x := Pow2(f.mantissaBits), Pow2(f.exponentBits), Encode(f, negative, exponent, mantissa);
    var high := (if negative then o else 0) + exponent;
    FieldBounds(f, x);
    DivModUnique(x, p, high, mantissa);
    ShrIsDiv(x, f.mantissaBits);
    assert Exponent(f, x) == exponent by {
      assert Shr(Pow2(f.exponentBits + 1) - 1, 1) == o - 1;
      AndMask(high, f.exponentBits);
      DivModUnique(high, o, if negative then 1 else 0, exponent);
    }
    SignOfEncode(f, negative, exponent, mantissa);
  }

  lemma SignOfEncode(f: Format, negative: bool, exponent: nat, mantissa: nat)
    requires exponent < Pow2(f.exponentBits) && mantissa < Pow2(f.mantissaBits)
    ensures var x := Encode(f, negative, exponent, mantissa);
            IsNegative(f, x) == negative && x < Pow2(f.Width())
  {
    var p, o, x := Pow2(f.mantissaBits), Pow2(f.exponentBits), Encode(f, negative, exponent, mantissa);
    var sign := if negative then 1 else 0;
    assert (if negative then o else 0) == sign * o;
    Pow2Add(f.exponentBits, f.mantissaBits);
    EncodeAlgebra(sign, exponent, mantissa, o, p);
    ShrIsDiv(x, f.exponentBits + f.mantissaBits);
  }

  lemma EncodeAlgebra(sign: nat, exponent: nat, mantissa: nat, o: nat, p: nat)
    requires sign <= 1 && exponent < o && mantissa < p
    ensures o * p > 0
    ensures var x := (sign * o + exponent) * p + mantissa; x / (o * p) == sign && x < 2 * (o * p)
  {
    var x, low := (sign * o + exponent) * p + mantissa, exponent * p + mantissa;
    MulLe(exponent + 1, o, p);
    Distribute(exponent, 1, p);
    Distribute(sign * o, exponent, p);
    MulAssociative(sign, o, p);
    DivModUnique(x, o * p, sign, low);
  }

  // ---------------------------------------------------------------- integers among the floats

  /** True exactly for +0 and for the integers of magnitude 1 to 2^(mantissaBits + 1) - 1; in particular -0 is
      refused. */
  lemma IntegerTestIsExact(f: Format, x: nat)
    requires f.Valid()
    ensures IsIntegerInRepresentableRange(f, x)
            <==> x == 0 || (Scaled(f, x) % Unit(f) == 0
                            && Unit(f) <= Scaled(f, x) < Pow2(f.mantissaBits + 1) * Unit(f))
  {
    var e, mb := NormalizedExponent(f, x), f.mantissaBits;
    if e < 0 {
      FractionIsBelowOne(f, x);
    } else {
      OctaveOfFloat(f, x, e);
      MulLe(1, Pow2(e), Unit(f));
      if e > mb {
        Pow2Monotone(mb + 1, e);
        MulLe(Pow2(mb + 1), Pow2(e), Unit(f));
      } else {
        Pow2Monotone(e + 1, mb + 1);
        MulLe(Pow2(e + 1), Pow2(mb + 1), Unit(f));
        NoFraction(f, x, e);
      }
    }
  }

  /** The masked mantissa bits are the fraction. */
  lemma NoFraction(f: Format, x: nat, e: nat)
    requires f.Valid() && NormalizedExponent(f, x) == e <= f.mantissaBits
    ensures And(Mantissa(f, x), Pow2(f.mantissaBits - e) - 1) == 0 <==> Scaled(f, x) % Unit(f) == 0
  {
    var mb, mant := f.mantissaBits, Mantissa(f, x);
    var p, q, t := CommonFactor(f, x, e);
    AndMask(mant, mb - e);
    Pow2Add(e, mb - e);
    assert q == Pow2(mb - e) && p == 1;
    ModAddMultiple(mant, Pow2(e), q);
    ModScale(Pow2(mb) + mant, q, t);
  }

  lemma ModScale(s: nat, q: nat, t: nat)
    requires q > 0 && t > 0
    ensures q * t > 0 && ((s * t) % (q * t) == 0 <==> s % q == 0)
  {
    MulLe(1, q, t);
    var d, r := s / q, s % q;
    Distribute(d * q, r, t);
    MulAssociative(d, q, t);
    MulLe(r + 1, q, t);
    Distribute(r, 1, t);
    DivModUnique(s * t, q * t, d, r * t);
    if r > 0 { MulLe(1, r, t); }
  }
}
