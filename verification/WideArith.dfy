/** Sums, differences, comparisons and bitwise operations on limbs. An operand narrower than the result is read as
    if extended by zero limbs. */
module WideArith {
  import opened Bits
  import opened WideLimbs

  function GetItem(x: seq<Limb>, i: nat): Limb {
    if i < |x| then x[i] else 0
  }

  function Extended(x: seq<Limb>, n: nat): (s: seq<Limb>)
    ensures |s| == n && forall i :: 0 <= i < n ==> s[i] == GetItem(x, i)
  {
    seq(n, i requires 0 <= i => GetItem(x, i))
  }

  lemma ExtendedValue(x: seq<Limb>, n: nat)
    requires |x| <= n
    ensures Value(Extended(x, n)) == Value(x)
  {
    var s := Extended(x, n);
    RangeSplit(s, 0, |x|, n);
    RangeSame(x, 0, |x|, s, 0);
    RangeZero(s, |x|, n);
  }

  function Flag(b: bool): nat {
    if b then 1 else 0
  }

  // ---------------------------------------------------------------- plus and minus

  /** Limb k holds the sum of a[k], b[k] and the carry `before`, and flag its own carry. */
  ghost predicate Added(res: Limb, flag: bool, a: Limb, b: Limb, before: bool) {
    res + BASE * Flag(flag) == a + b + Flag(before)
  }

  /** The flag below limb k. */
  ghost predicate Below(flags: seq<bool>, k: nat)
    requires k <= |flags|
  {
    k > 0 && flags[k - 1]
  }

  /** Limbs before `done` have taken their carry, the others have not. */
  ghost predicate Rippled(res: seq<Limb>, flags: seq<bool>, a: seq<Limb>, b: seq<Limb>, done: nat)
    requires |res| == |flags| == |a| == |b|
  {
    && (forall k {:trigger res[k]} :: 0 <= k < |res| && k < done ==> Added(res[k], flags[k], a[k], b[k], Below(flags, k)))
    && (forall k {:trigger res[k]} :: done <= k < |res| ==> Added(res[k], flags[k], a[k], b[k], false))
  }

  lemma RippledSum(res: seq<Limb>, flags: seq<bool>, a: seq<Limb>, b: seq<Limb>)
    requires |res| == |flags| == |a| == |b| && Rippled(res, flags, a, b, |res|)
    ensures exists top: nat :: Value(res) + top * Modulus(|res|) == Value(a) + Value(b)
  {
    var n := |res|;
    var c: seq<nat> := seq(n + 1, k requires 0 <= k <= n => Flag(Below(flags, k)));
    CarryChain(res, a, 1, b, c, 0);
    assert Value(res) + c[n] * Modulus(n) == Value(a) + Value(b);
  }

  /** First pass of the sum: limbs are added without carries, which are only noted. */
  method AddLimbs(lhs: seq<Limb>, rhs: seq<Limb>) returns (res: seq<Limb>, overflows: seq<bool>)
    requires 1 <= |rhs| <= |lhs|
    ensures |res| == |overflows| == |lhs| && Rippled(res, overflows, lhs, Extended(rhs, |lhs|), 1)
  {
    var n := |lhs|;
    res, overflows := lhs, seq(n, _ => false);
    for i := 0 to |rhs|
      invariant |res| == |overflows| == n
      invariant forall k :: i <= k < n ==> res[k] == lhs[k] && !overflows[k]
      invariant forall k :: 0 <= k < i ==> Added(res[k], overflows[k], lhs[k], GetItem(rhs, k), false)
    {
      var rhsItem, sum := GetItem(rhs, i), (res[i] + GetItem(rhs, i)) % BASE;
      res := res[i := sum];
      overflows := overflows[i := sum < rhsItem];
    }
  }

  method Plus(lhs: seq<Limb>, rhs: seq<Limb>) returns (res: seq<Limb>)
    requires 1 <= |rhs| <= |lhs|
    ensures |res| == |lhs| && Value(res) == (Value(lhs) + Value(rhs)) % Modulus(|lhs|)
  {
    var n := |lhs|;
    ghost var b := Extended(rhs, n);
    var overflows;
    res, overflows := AddLimbs(lhs, rhs);
    for i := 1 to n
      invariant |res| == |overflows| == n && Rippled(res, overflows, lhs, b, i)
    {
      if overflows[i - 1] {
        var item := (res[i] + 1) % BASE;
        assert Added(res[i], overflows[i], lhs[i], b[i], false);
        res := res[i := item];
        if item == 0 { overflows := overflows[i := true]; }
      }
    }
    SumModulo(res, overflows, lhs, rhs);
  }

  lemma SumModulo(res: seq<Limb>, flags: seq<bool>, lhs: seq<Limb>, rhs: seq<Limb>)
    requires |res| == |flags| == |lhs| >= |rhs| && Rippled(res, flags, lhs, Extended(rhs, |lhs|), |lhs|)
    ensures Value(res) == (Value(lhs) + Value(rhs)) % Modulus(|lhs|)
  {
    var n, b := |lhs|, Extended(rhs, |lhs|);
    RippledSum(res, flags, lhs, b);
    ExtendedValue(rhs, n);
    var top: nat :| Value(res) + top * Modulus(n) == Value(lhs) + Value(b);
    ValueBound(res);
    DivModUnique(Value(lhs) + Value(rhs), Modulus(n), top, Value(res));
  }

  /** First pass of the difference. */
  method SubtractLimbs(lhs: seq<Limb>, rhs: seq<Limb>) returns (res: seq<Limb>, underflows: seq<bool>)
    requires 1 <= |rhs| <= |lhs|
    ensures |res| == |underflows| == |lhs| && Rippled(lhs, underflows, res, Extended(rhs, |lhs|), 1)
  {
    var n := |lhs|;
    res, underflows := lhs, seq(n, _ => false);
    for i := 0 to |rhs|
      invariant |res| == |underflows| == n
      invariant forall k :: i <= k < n ==> res[k] == lhs[k] && !underflows[k]
      invariant forall k :: 0 <= k < i ==> Added(lhs[k], underflows[k], res[k], GetItem(rhs, k), false)
    {
      var rhsItem := GetItem(rhs, i);
      underflows := underflows[i := res[i] < rhsItem];
      res := res[i := (res[i] - rhsItem) % BASE];
    }
  }

  method Minus(lhs: seq<Limb>, rhs: seq<Limb>) returns (res: seq<Limb>)
    requires 1 <= |rhs| <= |lhs|
    ensures |res| == |lhs| && Value(res) == (Value(lhs) - Value(rhs)) % Modulus(|lhs|)
  {
    var n := |lhs|;
    ghost var b := Extended(rhs, n);
    var underflows;
    res, underflows := SubtractLimbs(lhs, rhs);
    for i := 1 to n
      invariant |res| == |underflows| == n && Rippled(lhs, underflows, res, b, i)
    {
      if underflows[i - 1] {
        assert Added(lhs[i], underflows[i], res[i], b[i], false);
        if res[i] == 0 { underflows := underflows[i := true]; }
        res := res[i := (res[i] - 1) % BASE];
      }
    }
    DifferenceModulo(res, underflows, lhs, rhs);
  }

  lemma DifferenceModulo(res: seq<Limb>, flags: seq<bool>, lhs: seq<Limb>, rhs: seq<Limb>)
    requires |res| == |flags| == |lhs| >= |rhs| && Rippled(lhs, flags, res, Extended(rhs, |lhs|), |lhs|)
    ensures Value(res) == (Value(lhs) - Value(rhs)) % Modulus(|lhs|)
  {
    var n, b := |lhs|, Extended(rhs, |lhs|);
    RippledSum(lhs, flags, res, b);
    ExtendedValue(rhs, n);
    var top: nat :| Value(lhs) + top * Modulus(n) == Value(res) + Value(b);
    ValueBound(res);
    DivModUnique(Value(lhs) - Value(rhs), Modulus(n), 0 - top, Value(res));
  }

  // ---------------------------------------------------------------- negation

  method UnaryTilda(lhs: seq<Limb>) returns (res: seq<Limb>)
    ensures |res| == |lhs| && Value(res) == Modulus(|lhs|) - 1 - Value(lhs)
  {
    res := Zeros(|lhs|);
    for i := 0 to |lhs|
      invariant |res| == |lhs| && forall k :: 0 <= k < i ==> res[k] == BASE - 1 - lhs[k]
    {
      res := res[i := BASE - 1 - lhs[i]];
    }
    Complement(lhs, res, 0);
  }

  lemma {:induction false} Complement(a: seq<Limb>, b: seq<Limb>, i: nat)
    requires |a| == |b| && i <= |a| && forall k :: 0 <= k < |a| ==> b[k] == BASE - 1 - a[k]
    ensures Range(a, i, |a|) + Range(b, i, |b|) == Modulus(|a| - i) - 1
    decreases |a| - i
  {
    if i < |a| { Complement(a, b, i + 1); }
  }

  method UnaryMinus(lhs: seq<Limb>) returns (res: seq<Limb>)
    requires lhs != []
    ensures |res| == |lhs| && Value(res) == (-(Value(lhs) as int)) % Modulus(|lhs|)
  {
    var complement := UnaryTilda(lhs);
    res := Plus(complement, [1]);
    OneLimb(1);
    ModAddMultiple(-(Value(lhs) as int), 1, Modulus(|lhs|));
  }

  method MakePositive(n: seq<Limb>, signed: bool) returns (res: seq<Limb>)
    requires n != []
    ensures |res| == |n| && Value(res) == if Signed(n, signed) < 0 then -Signed(n, signed) else Signed(n, signed)
  {
    ValueBound(n);
    if IsNegative(n, signed) {
      res := UnaryMinus(n);
      NegativeIsUpperHalf(n);
      DivModUnique(-(Value(n) as int), Modulus(|n|), -1, Modulus(|n|) - Value(n));
    } else {
      res := n;
    }
  }

  // ---------------------------------------------------------------- comparisons

  /** The most significant limb that differs decides. */
  lemma {:induction false} FirstDifference(a: seq<Limb>, b: seq<Limb>, k: nat, i: nat)
    requires |a| == |b| && i <= k < |a| && a[k] < b[k] && Range(a, k + 1, |a|) == Range(b, k + 1, |b|)
    ensures Range(a, i, |a|) < Range(b, i, |b|)
    decreases k - i
  {
    if i < k { FirstDifference(a, b, k, i + 1); }
  }

  method Greater(lhs: seq<Limb>, rhs: seq<Limb>, signed: bool) returns (r: bool)
    requires |lhs| == |rhs| > 0
    ensures r == (Signed(lhs, signed) > Signed(rhs, signed))
  {
    var n := |lhs|;
    ValueBound(lhs);
    ValueBound(rhs);
    if IsNegative(lhs, signed) != IsNegative(rhs, signed) { return IsNegative(rhs, signed); }
    for i := 0 to n
      invariant Range(lhs, n - i, n) == Range(rhs, n - i, n)
    {
      if lhs[n - 1 - i] != rhs[n - 1 - i] {
        r := lhs[n - 1 - i] > rhs[n - 1 - i];
        if r { FirstDifference(rhs, lhs, n - 1 - i, 0); } else { FirstDifference(lhs, rhs, n - 1 - i, 0); }
        return;
      }
    }
    r := false;
  }

  method Less(lhs: seq<Limb>, rhs: seq<Limb>, signed: bool) returns (r: bool)
    requires |lhs| == |rhs| > 0
    ensures r == (Signed(lhs, signed) < Signed(rhs, signed))
  {
    var n := |lhs|;
    ValueBound(lhs);
    ValueBound(rhs);
    if IsNegative(lhs, signed) != IsNegative(rhs, signed) { return IsNegative(lhs, signed); }
    for i := 0 to n
      invariant Range(lhs, n - i, n) == Range(rhs, n - i, n)
    {
      if lhs[n - 1 - i] != rhs[n - 1 - i] {
        r := lhs[n - 1 - i] < rhs[n - 1 - i];
        if r { FirstDifference(lhs, rhs, n - 1 - i, 0); } else { FirstDifference(rhs, lhs, n - 1 - i, 0); }
        return;
      }
    }
    r := false;
  }

  method Equal(lhs: seq<Limb>, rhs: seq<Limb>) returns (r: bool)
    requires |rhs| <= |lhs|
    ensures r == (Value(lhs) == Value(rhs))
  {
    var t := Extended(rhs, |lhs|);
    ExtendedValue(rhs, |lhs|);
    for i := 0 to |lhs|
      invariant forall k :: 0 <= k < i ==> lhs[k] == t[k]
    {
      if lhs[i] != t[i] {
        if Value(lhs) == Value(t) { ValueInjective(lhs, t); }
        return false;
      }
    }
    assert lhs == t;
    r := true;
  }

  method IsZero(x: seq<Limb>) returns (r: bool)
    ensures r == (Value(x) == 0)
  {
    r := true;
    for i := 0 to |x|
      invariant r && forall k :: 0 <= k < i ==> x[k] == 0
    {
      if x[i] != 0 {
        RangeSplit(x, 0, i, |x|);
        MulLe(1, Modulus(i), Range(x, i, |x|));
        return false;
      }
    }
    RangeZero(x, 0, |x|);
  }

  // ---------------------------------------------------------------- bitwise operations

  method Pipe(lhs: seq<Limb>, rhs: seq<Limb>) returns (res: seq<Limb>)
    requires |rhs| <= |lhs|
    ensures |res| == |lhs| && Value(res) == Or(Value(lhs), Value(rhs))
  {
    res := Zeros(|lhs|);
    for i := 0 to |lhs|
      invariant |res| == |lhs| && forall k :: 0 <= k < i ==> res[k] == Or(lhs[k], GetItem(rhs, k))
    {
      LimbBits(lhs[i], GetItem(rhs, i));
      res := res[i := Or(lhs[i], GetItem(rhs, i))];
    }
    ExtendedValue(rhs, |lhs|);
    OrOfLimbs(lhs, Extended(rhs, |lhs|), res, 0);
  }

  method Amp(lhs: seq<Limb>, rhs: seq<Limb>) returns (res: seq<Limb>)
    requires |rhs| <= |lhs|
    ensures |res| == |lhs| && Value(res) == And(Value(lhs), Value(rhs))
  {
    res := Zeros(|lhs|);
    for i := 0 to |lhs|
      invariant |res| == |lhs| && forall k :: 0 <= k < i ==> res[k] == And(lhs[k], GetItem(rhs, k))
    {
      LimbBits(lhs[i], GetItem(rhs, i));
      res := res[i := And(lhs[i], GetItem(rhs, i))];
    }
    ExtendedValue(rhs, |lhs|);
    AndOfLimbs(lhs, Extended(rhs, |lhs|), res, 0);
  }

  lemma LimbBits(x: Limb, y: Limb)
    ensures Or(x, y) < BASE && And(x, y) < BASE
  {
    BaseIsPow2();
    BitwiseBound(x, y, BASE_BITS);
  }

  lemma {:induction false} OrOfLimbs(a: seq<Limb>, b: seq<Limb>, r: seq<Limb>, i: nat)
    requires |a| == |b| == |r| && i <= |a| && forall k :: 0 <= k < |a| ==> r[k] == Or(a[k], b[k])
    ensures Range(r, i, |r|) == Or(Range(a, i, |a|), Range(b, i, |b|))
    decreases |a| - i
  {
    if i < |a| {
      OrOfLimbs(a, b, r, i + 1);
      LimbOr(Range(a, i + 1, |a|), a[i], Range(b, i + 1, |b|), b[i]);
    }
  }

  lemma {:induction false} AndOfLimbs(a: seq<Limb>, b: seq<Limb>, r: seq<Limb>, i: nat)
    requires |a| == |b| == |r| && i <= |a| && forall k :: 0 <= k < |a| ==> r[k] == And(a[k], b[k])
    ensures Range(r, i, |r|) == And(Range(a, i, |a|), Range(b, i, |b|))
    decreases |a| - i
  {
    if i < |a| {
      AndOfLimbs(a, b, r, i + 1);
      LimbAnd(Range(a, i + 1, |a|), a[i], Range(b, i + 1, |b|), b[i]);
    }
  }

  lemma LimbOr(h1: nat, l1: Limb, h2: nat, l2: Limb)
    ensures Or(l1 + BASE * h1, l2 + BASE * h2) == Or(l1, l2) + BASE * Or(h1, h2)
  {
    BaseIsPow2();
    OrJoin(h1, l1, h2, l2, BASE_BITS);
  }

  lemma LimbAnd(h1: nat, l1: Limb, h2: nat, l2: Limb)
    ensures And(l1 + BASE * h1, l2 + BASE * h2) == And(l1, l2) + BASE * And(h1, h2)
  {
    BaseIsPow2();
    AndJoin(h1, l1, h2, l2, BASE_BITS);
  }
}
