/** Wide integers as sequences of 64-bit limbs, least significant first, and the number they stand for. */
module WideLimbs {
  import opened Bits

  const BASE_BITS: nat := 64
  const BASE: nat := 0x1_0000_0000_0000_0000

  type Limb = x: nat | x < BASE

  /** BASE^n: one more than the largest number of n limbs. */
  function Modulus(n: nat): (m: nat)
    ensures m >= 1
  {
    if n == 0 then 1 else BASE * Modulus(n - 1)
  }

  /** The number held by limbs i to j - 1. */
  function Range(s: seq<Limb>, i: nat, j: nat): nat
    requires i <= j <= |s|
    decreases j - i
  {
    if i == j then 0 else s[i] + BASE * Range(s, i + 1, j)
  }

  function Value(s: seq<Limb>): nat {
    Range(s, 0, |s|)
  }

  /** The sign bit is the top bit of the last limb. */
  predicate IsNegative(s: seq<Limb>, signed: bool) {
    signed && s != [] && s[|s| - 1] >= BASE / 2
  }

  /** The number as the type reads it: two's complement if signed. */
  function Signed(s: seq<Limb>, signed: bool): int {
    if IsNegative(s, signed) then Value(s) - Modulus(|s|) else Value(s)
  }

  // ---------------------------------------------------------------- bounds and parts

  lemma {:induction false} RangeBound(s: seq<Limb>, i: nat, j: nat)
    requires i <= j <= |s|
    ensures Range(s, i, j) < Modulus(j - i)
    decreases j - i
  {
    if i < j { RangeBound(s, i + 1, j); }
  }

  lemma ValueBound(s: seq<Limb>)
    ensures Value(s) < Modulus(|s|)
  {
    RangeBound(s, 0, |s|);
  }

  lemma SmallValue(s: seq<Limb>)
    ensures Value(s) % Modulus(|s|) == Value(s)
  {
    ValueBound(s);
    DivModUnique(Value(s), Modulus(|s|), 0, Value(s));
  }

  lemma {:induction false} ModulusAdd(m: nat, n: nat)
    ensures Modulus(m + n) == Modulus(m) * Modulus(n)
  {
    if m > 0 {
      ModulusAdd(m - 1, n);
      MulAssociative(BASE, Modulus(m - 1), Modulus(n));
    }
  }

  lemma {:induction false} RangeSplit(s: seq<Limb>, i: nat, j: nat, k: nat)
    requires i <= j <= k <= |s|
    ensures Range(s, i, k) == Range(s, i, j) + Modulus(j - i) * Range(s, j, k)
    decreases j - i
  {
    if i < j {
      RangeSplit(s, i + 1, j, k);
      MulAssociative(BASE, Modulus(j - i - 1), Range(s, j, k));
    }
  }

  lemma {:induction false} RangeSame(s: seq<Limb>, i: nat, j: nat, t: seq<Limb>, d: nat)
    requires i <= j <= |s| && j + d <= |t|
    requires forall k :: i <= k < j ==> s[k] == t[k + d]
    ensures Range(s, i, j) == Range(t, i + d, j + d)
    decreases j - i
  {
    if i < j { RangeSame(s, i + 1, j, t, d); }
  }

  lemma {:induction false} RangeZero(s: seq<Limb>, i: nat, j: nat)
    requires i <= j <= |s| && forall k :: i <= k < j ==> s[k] == 0
    ensures Range(s, i, j) == 0
    decreases j - i
  {
    if i < j { RangeZero(s, i + 1, j); }
  }

  lemma {:induction false} RangeOnes(s: seq<Limb>, i: nat, j: nat)
    requires i <= j <= |s| && forall k :: i <= k < j ==> s[k] == BASE - 1
    ensures Range(s, i, j) == Modulus(j - i) - 1
    decreases j - i
  {
    if i < j { RangeOnes(s, i + 1, j); }
  }

  /** Equal numbers of equal length have equal limbs. */
  lemma {:induction false} RangeInjective(s: seq<Limb>, t: seq<Limb>, i: nat)
    requires |s| == |t| && i <= |s| && Range(s, i, |s|) == Range(t, i, |t|)
    ensures forall k :: i <= k < |s| ==> s[k] == t[k]
    decreases |s| - i
  {
    if i < |s| {
      assert (Range(s, i + 1, |s|) - Range(t, i + 1, |t|)) * BASE == t[i] - s[i];
      RangeInjective(s, t, i + 1);
    }
  }

  lemma ValueInjective(s: seq<Limb>, t: seq<Limb>)
    requires |s| == |t| && Value(s) == Value(t)
    ensures s == t
  {
    RangeInjective(s, t, 0);
  }

  lemma OneLimb(x: Limb)
    ensures Value([x]) == x
  {
    assert Range([x], 1, 1) == 0;
  }

  // ---------------------------------------------------------------- carries

  ghost predicate Chained(r: seq<Limb>, a: seq<Limb>, p: nat, b: seq<Limb>, c: seq<nat>)
    requires |r| == |a| == |b| && |c| == |r| + 1
  {
    forall i {:trigger r[i]} :: 0 <= i < |r| ==> r[i] + BASE * c[i + 1] == a[i] * p + b[i] + c[i]
  }

  /** Limb by limb r + BASE * (carry out) = a * p + b + (carry in); then so for the whole numbers. */
  lemma {:induction false} CarryChain(r: seq<Limb>, a: seq<Limb>, p: nat, b: seq<Limb>, c: seq<nat>, i: nat)
    requires |r| == |a| == |b| && |c| == |r| + 1 && i <= |r| && Chained(r, a, p, b, c)
    ensures var n := |r|;
            Range(r, i, n) + c[n] * Modulus(n - i) == Range(a, i, n) * p + Range(b, i, n) + c[i]
    decreases |r| - i
  {
    var n := |r|;
    if i < n {
      CarryChain(r, a, p, b, c, i + 1);
      CarryStep(r[i], a[i], p, b[i], c[i], c[i + 1], c[n], Modulus(n - i - 1),
                Range(r, i + 1, n), Range(a, i + 1, n), Range(b, i + 1, n));
    }
  }

  lemma CarryStep(r: int, a: int, p: int, b: int, c: int, c': int, top: int, m: int, r': int, a': int, b': int)
    requires r + BASE * c' == a * p + b + c && r' + top * m == a' * p + b' + c'
    ensures (r + BASE * r') + top * (BASE * m) == (a + BASE * a') * p + (b + BASE * b') + c
  {
    assert top * (BASE * m) == BASE * (top * m);
    assert (a + BASE * a') * p == a * p + BASE * (a' * p);
  }

  function Zeros(n: nat): (s: seq<Limb>)
    ensures |s| == n && forall i :: 0 <= i < n ==> s[i] == 0
  {
    seq(n, _ => 0)
  }

  /** The case with nothing added. */
  lemma ScaleChain(r: seq<Limb>, a: seq<Limb>, p: nat, c: seq<nat>)
    requires |r| == |a| && |c| == |r| + 1 && Chained(r, a, p, Zeros(|r|), c)
    ensures Value(r) + c[|r|] * Modulus(|r|) == Value(a) * p + c[0]
  {
    CarryChain(r, a, p, Zeros(|r|), c, 0);
    RangeZero(Zeros(|r|), 0, |r|);
  }

  lemma LowPart(s: seq<Limb>, m: nat)
    requires m <= |s|
    ensures Value(s[..m]) == Range(s, 0, m)
  {
    RangeSame(s[..m], 0, m, s, 0);
  }

  lemma HighPart(s: seq<Limb>, i: nat)
    requires i <= |s|
    ensures Value(s[i..]) == Range(s, i, |s|)
  {
    RangeSame(s[i..], 0, |s| - i, s, i);
  }

  // ---------------------------------------------------------------- powers of two

  lemma BaseIsPow2()
    ensures Pow2(BASE_BITS) == BASE
  {
    assert Pow2(8) == 0x100;
    Pow2Add(8, 8);
    Pow2Add(16, 16);
    Pow2Add(32, 32);
  }

  lemma {:induction false} ModulusIsPow2(n: nat)
    ensures Modulus(n) == Pow2(BASE_BITS * n)
  {
    if n > 0 {
      ModulusIsPow2(n - 1);
      BaseIsPow2();
      Pow2Add(BASE_BITS, BASE_BITS * (n - 1));
    }
  }

  // ---------------------------------------------------------------- signs

  lemma NegativeIsUpperHalf(s: seq<Limb>)
    requires s != []
    ensures IsNegative(s, true) <==> 2 * Value(s) >= Modulus(|s|)
  {
    var n := |s|;
    RangeSplit(s, 0, n - 1, n);
    RangeBound(s, 0, n - 1);
    assert Range(s, n - 1, n) == s[n - 1];
    UpperHalf(Modulus(n - 1), s[n - 1], Range(s, 0, n - 1));
  }

  lemma UpperHalf(m: nat, x: Limb, low: nat)
    requires low < m
    ensures x >= BASE / 2 <==> 2 * (low + m * x) >= BASE * m
  {
    var half := BASE / 2;
    if x >= half { MulLe(half, x, m); } else { MulLe(x + 1, half, m); }
  }

  /** A number between -M/2 and M/2 - 1 is recovered from its residue. */
  lemma SignedUnique(s: seq<Limb>, v: int)
    requires s != [] && Value(s) == v % Modulus(|s|) && 0 - Modulus(|s|) <= 2 * v < Modulus(|s|)
    ensures Signed(s, true) == v
  {
    var m := Modulus(|s|);
    NegativeIsUpperHalf(s);
    if v < 0 { DivModUnique(v, m, -1, v + m); } else { DivModUnique(v, m, 0, v); }
  }

  lemma SignedBound(s: seq<Limb>)
    requires s != []
    ensures 0 - Modulus(|s|) <= 2 * Signed(s, true) < Modulus(|s|)
  {
    NegativeIsUpperHalf(s);
    ValueBound(s);
  }

  lemma SignedResidue(s: seq<Limb>, signed: bool)
    ensures Signed(s, signed) % Modulus(|s|) == Value(s)
  {
    var m := Modulus(|s|);
    ValueBound(s);
    if IsNegative(s, signed) { DivModUnique(Signed(s, signed), m, -1, Value(s)); }
    else { DivModUnique(Signed(s, signed), m, 0, Value(s)); }
  }
}
