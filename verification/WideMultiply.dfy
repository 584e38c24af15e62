/** The two multiplications: four limbs through 128-bit halves, and any number of limbs by shifting and adding. */
module WideMultiply {
  import opened Bits
  import opened WideLimbs
  import opened WideArith
  import opened WideShift

  // ---------------------------------------------------------------- 256 bits

  const HALF: nat := 0x1_0000_0000_0000_0000_0000_0000_0000_0000

  type Half = x: nat | x < HALF

  /** Arithmetic of the 128-bit type wraps around. */
  function Wrap(x: int): Half {
    x % HALF
  }

  lemma LimbProduct(x: nat, y: nat)
    requires x < BASE && y < BASE
    ensures 0 <= x * y < HALF
  {
    MulLe(x, BASE - 1, y);
  }

  /** x + y in a half; its carry goes into the top limb. */
  method AddCarrying(x: Half, y: Half, top: Limb) returns (sum: Half, top': Limb, ghost carry: nat)
    ensures sum + HALF * carry == x + y && top' == (top + carry) % BASE
  {
    sum, top', carry := Wrap(x + y), top, 0;
    if sum < y {
      top' := (top + 1) % BASE;
      carry := 1;
    }
  }

  /** Put together the partial products: x and y are worth BASE, r23 is worth BASE^2. */
  method Assemble(r01: Half, r23: Half, x: Half, y: Half) returns (res: seq<Limb>)
    ensures |res| == 4 && Value(res) == (r01 + BASE * (x + y) + HALF * r23) % Modulus(4)
  {
    var r12 := Wrap(r01 / BASE + Wrap(r23 * BASE));
    res := [r01 % BASE, 0, 0, r23 / BASE];
    ghost var c1, c2;
    var r12x: Half, top: Limb;
    r12x, top, c1 := AddCarrying(x, y, res[3]);
    res := res[3 := top];
    r12, top, c2 := AddCarrying(r12, r12x, res[3]);
    res := res[3 := top];
    res := res[1 := r12 % BASE];
    res := res[2 := r12 / BASE];
    Assembled(r01, r23, x, y, r12, r12x, c1, c2, res);
  }

  lemma Assembled(r01: Half, r23: Half, x: Half, y: Half, r12: Half, r12x: Half, c1: nat, c2: nat, res: seq<Limb>)
    requires |res| == 4 && res[0] == r01 % BASE && res[1] == r12 % BASE && res[2] == r12 / BASE
    requires res[3] == ((r23 / BASE + c1) % BASE + c2) % BASE
    requires r12x + HALF * c1 == x + y && r12 + HALF * c2 == Wrap(r01 / BASE + Wrap(r23 * BASE)) + r12x
    ensures Value(res) == (r01 + BASE * (x + y) + HALF * r23) % Modulus(4)
  {
    MiddleHalf(r01 / BASE, r23);
    TopLimb(r23 / BASE, c1, c2);
    var over := (r23 / BASE + c1 + c2) / BASE;
    FourLimbs(res);
    AssembledSum(r01, r23, x, y, r12, r12x, c1, c2, over, res[0], res[1], res[2], res[3]);
    ValueBound(res);
    DivModUnique(r01 + BASE * (x + y) + HALF * r23, Modulus(4), over, Value(res));
  }

  lemma MiddleHalf(r1: Limb, r23: Half)
    ensures Wrap(r1 + Wrap(r23 * BASE)) == r1 + (r23 % BASE) * BASE
  {
    assert r23 * BASE == (r23 / BASE) * HALF + (r23 % BASE) * BASE;
    DivModUnique(r23 * BASE, HALF, r23 / BASE, (r23 % BASE) * BASE);
  }

  lemma TopLimb(high: nat, c1: nat, c2: nat)
    ensures ((high + c1) % BASE + c2) % BASE == high + c1 + c2 - BASE * ((high + c1 + c2) / BASE)
  {
    ModAddMultiple((high + c1) % BASE + c2, (high + c1) / BASE, BASE);
  }

  lemma AssembledSum(r01: int, r23: int, x: int, y: int, r12: int, r12x: int, c1: int, c2: int, over: int,
                     s0: int, s1: int, s2: int, s3: int)
    requires r12x + HALF * c1 == x + y && r12 + HALF * c2 == r01 / BASE + (r23 % BASE) * BASE + r12x
    requires s0 == r01 % BASE && r12 == s1 + BASE * s2 && s3 == r23 / BASE + c1 + c2 - BASE * over
    ensures r01 + BASE * (x + y) + HALF * r23
            == (s0 + BASE * s1 + HALF * s2 + BASE * HALF * s3) + over * (HALF * HALF)
  {
    assert r01 == s0 + BASE * (r01 / BASE) && r23 == r23 % BASE + BASE * (r23 / BASE);
  }

  lemma FourLimbs(s: seq<Limb>)
    requires |s| == 4
    ensures Value(s) == s[0] + BASE * s[1] + HALF * s[2] + BASE * HALF * s[3] && Modulus(4) == HALF * HALF
  {
    assert Range(s, 2, 4) == s[2] + BASE * s[3];
  }

  /** The product of two numbers in halves: everything above 2^256 is dropped. */
  lemma HalvesProduct(a0: nat, a1: nat, a23: nat, b0: nat, b1: nat, b23: nat)
    ensures var a01, b01 := a0 + BASE * a1, b0 + BASE * b1;
            (a01 + HALF * a23) * (b01 + HALF * b23)
            == a0 * b0 + BASE * (a1 * b0 + a0 * b1) + HALF * (a23 * b01 + a01 * b23 + a1 * b1)
               + HALF * HALF * (a23 * b23)
  {
    var a01, b01 := a0 + BASE * a1, b0 + BASE * b1;
    assert a01 * b01 == a0 * b0 + BASE * (a1 * b0 + a0 * b1) + HALF * (a1 * b1);
    assert (a01 + HALF * a23) * (b01 + HALF * b23)
        == a01 * b01 + HALF * (a23 * b01 + a01 * b23) + HALF * HALF * (a23 * b23);
  }

  /** The operand in halves; the missing limbs of a narrower operand are zero. */
  method Halves(rhs: seq<Limb>) returns (b0: Limb, b1: Limb, b01: Half, b23: Half)
    requires |rhs| == 1 || |rhs| == 2 || |rhs| == 4
    ensures b01 == b0 + BASE * b1 && Value(rhs) == b01 + HALF * b23
  {
    b01 := rhs[0] + BASE * GetItem(rhs, 1);
    b0, b1, b23 := b01 % BASE, 0, 0;
    if |rhs| > 1 { b1 := b01 / BASE; }
    if |rhs| > 2 { b23 := rhs[3] * BASE + rhs[2]; }
    ExtendedValue(rhs, 4);
    FourLimbs(Extended(rhs, 4));
  }

  method Multiply256(lhs: seq<Limb>, rhs: seq<Limb>) returns (res: seq<Limb>)
    requires |lhs| == 4 && (|rhs| == 1 || |rhs| == 2 || |rhs| == 4)
    ensures |res| == 4 && Value(res) == (Value(lhs) * Value(rhs)) % Modulus(4)
  {
    var a01: Half, a23: Half := lhs[1] * BASE + lhs[0], lhs[3] * BASE + lhs[2];
    var a0: Half, a1: Half := lhs[0], lhs[1];
    var b0, b1, b01, b23 := Halves(rhs);
    var r23 := Wrap(a23 * b01 + a01 * b23 + a1 * b1);
    LimbProduct(a0, b0);
    LimbProduct(a1, b0);
    LimbProduct(a0, b1);
    // For an operand of one limb b1 is zero and the second addend of the middle product vanishes.
    res := Assemble(a0 * b0, r23, a1 * b0, a0 * b1);
    ProductModulo(lhs, Value(rhs), a0, a1, a01, a23, b0, b1, b01, b23, r23);
  }

  lemma ProductModulo(lhs: seq<Limb>, b: nat, a0: Limb, a1: Limb, a01: Half, a23: Half,
                      b0: Limb, b1: Limb, b01: Half, b23: Half, r23: Half)
    requires |lhs| == 4 && a0 == lhs[0] && a1 == lhs[1] && a01 == a0 + BASE * a1 && a23 == lhs[3] * BASE + lhs[2]
    requires b01 == b0 + BASE * b1 && b == b01 + HALF * b23
    requires r23 == Wrap(a23 * b01 + a01 * b23 + a1 * b1)
    ensures (a0 * b0 + BASE * (a1 * b0 + a0 * b1) + HALF * r23) % Modulus(4) == (Value(lhs) * b) % Modulus(4)
  {
    FourLimbs(lhs);
    HalvesProduct(a0, a1, a23, b0, b1, b23);
    var raw := a23 * b01 + a01 * b23 + a1 * b1;
    var low := a0 * b0 + BASE * (a1 * b0 + a0 * b1) + HALF * r23;
    var k := raw / HALF + a23 * b23;
    assert Value(lhs) * b == low + k * Modulus(4);
    ModAddMultiple(low, k, Modulus(4));
  }

  // ---------------------------------------------------------------- any number of limbs

  /** Adding w times the multiplicand at position P to the running sum. */
  lemma AddWindow(v: nat, start: nat, l: nat, done: nat, w: nat, p: nat, m: nat)
    requires m > 0 && v == (start + l * done) % m
    ensures (v + (((w * l) % m) * p) % m) % m == (start + l * (done + w * p)) % m
  {
    var x, y := (w * l) % m, start + l * done;
    ModReduce(1, x * p, v, m);
    ModReduce(p, w * l, v, m);
    assert x * p == p * x && p * (w * l) == l * (w * p);
    ModReduce(1, y, l * (w * p), m);
    assert l * (done + w * p) == l * done + l * (w * p);
  }

  ghost predicate Accumulated(res: seq<Limb>, start: nat, l: nat, done: nat) {
    Value(res) == (start + l * done) % Modulus(|res|)
  }

  /** res plus w times lhs shifted up by pos, where `times` holds w * lhs. */
  method AddShifted(res: seq<Limb>, times: seq<Limb>, pos: nat, ghost w: nat, ghost l: nat, ghost start: nat,
                    ghost done: nat) returns (r: seq<Limb>)
    requires |times| == |res| > 0 && pos < BASE_BITS * |res|
    requires Value(times) == (w * l) % Modulus(|res|) && Accumulated(res, start, l, done)
    ensures |r| == |res| && Accumulated(r, start, l, done + w * Pow2(pos))
  {
    var shifted := ShiftLeft(times, pos);
    r := Plus(res, shifted);
    AddWindow(Value(res), start, l, done, w, Pow2(pos), Modulus(|res|));
  }

  /** A nonzero rest of the multiplier leaves room for the shift. */
  lemma PositionInRange(item: nat, pos: nat, n: nat)
    requires item > 0 && item * Pow2(pos) < Modulus(n)
    ensures pos < BASE_BITS * n
  {
    ModulusIsPow2(n);
    MulLe(1, item, Pow2(pos));
    if pos >= BASE_BITS * n { Pow2Monotone(BASE_BITS * n, pos); }
  }

  /** The low bits that the window tests, and what the shift leaves. */
  lemma Window(item: nat, bits: nat, pos: nat)
    ensures item * Pow2(pos) == And(item, Pow2(bits) - 1) * Pow2(pos) + Shr(item, bits) * Pow2(pos + bits)
  {
    AndMask(item, bits);
    ShrIsDiv(item, bits);
    Pow2Add(bits, pos);
    WindowAlgebra(item, Pow2(bits), Pow2(pos));
  }

  lemma WindowAlgebra(item: nat, b: nat, p: nat)
    requires b > 0
    ensures item * p == (item % b) * p + (item / b) * (b * p)
  {
    var q, w := item / b, item % b;
    assert item == q * b + w;
    assert (q * b + w) * p == (q * b) * p + w * p;
    MulAssociative(q, b, p);
  }

  /** Take one window of `bits` bits that are all ones, w = 2^bits - 1, off the multiplier. */
  method TakeOnes(res: seq<Limb>, times: seq<Limb>, item: nat, pos: nat, bits: nat,
                  ghost l: nat, ghost start: nat, ghost done: nat)
    returns (res': seq<Limb>, item': nat, pos': nat, ghost done': nat)
    requires |times| == |res| > 0 && 1 <= bits && item > 0 && And(item, Pow2(bits) - 1) == Pow2(bits) - 1
    requires Value(times) == ((Pow2(bits) - 1) * l) % Modulus(|res|) && Accumulated(res, start, l, done)
    requires item * Pow2(pos) < Modulus(|res|)
    ensures |res'| == |res| && Accumulated(res', start, l, done') && item' < item
    ensures done' + item' * Pow2(pos') == done + item * Pow2(pos)
  {
    PositionInRange(item, pos, |res|);
    res' := AddShifted(res, times, pos, Pow2(bits) - 1, l, start, done);
    done' := done + (Pow2(bits) - 1) * Pow2(pos);
    item', pos' := Shr(item, bits), pos + bits;
    Window(item, bits, pos);
    ShrShrinks(item, bits);
  }

  lemma ShrShrinks(item: nat, bits: nat)
    requires item > 0 && bits >= 1
    ensures Shr(item, bits) < item
  {
    assert Shr(item / 2, bits - 1) <= item / 2;
  }

  /** One limb of the multiplier, three, two or one bit at a time. */
  method MultiplyItem(res0: seq<Limb>, lhs: seq<Limb>, lhs2: seq<Limb>, lhs3: seq<Limb>, item: Limb, pos0: nat)
    returns (res: seq<Limb>)
    requires |lhs| == |lhs2| == |lhs3| == |res0| > 0 && item * Pow2(pos0) < Modulus(|lhs|)
    requires Value(lhs2) == (3 * Value(lhs)) % Modulus(|lhs|) && Value(lhs3) == (7 * Value(lhs)) % Modulus(|lhs|)
    ensures |res| == |lhs| && Accumulated(res, Value(res0), Value(lhs), item * Pow2(pos0))
  {
    ghost var n, l, start, done: nat := |lhs|, Value(lhs), Value(res0), 0;
    var rhsItem: nat, pos := item, pos0;
    res := res0;
    SmallValue(res0);
    SmallValue(lhs);
    while rhsItem != 0
      invariant |res| == n && Accumulated(res, start, l, done)
      invariant done + rhsItem * Pow2(pos) == item * Pow2(pos0)
      decreases rhsItem
    {
      if And(rhsItem, 7) == 7 {
        res, rhsItem, pos, done := TakeOnes(res, lhs3, rhsItem, pos, 3, l, start, done);
        continue;
      }
      if And(rhsItem, 3) == 3 {
        res, rhsItem, pos, done := TakeOnes(res, lhs2, rhsItem, pos, 2, l, start, done);
        continue;
      }
      if And(rhsItem, 1) == 1 {
        res, rhsItem, pos, done := TakeOnes(res, lhs, rhsItem, pos, 1, l, start, done);
      } else {
        Window(rhsItem, 1, pos);
        AndAtMost(rhsItem, 1);
        ShrShrinks(rhsItem, 1);
        rhsItem, pos := Shr(rhsItem, 1), pos + 1;
      }
    }
  }

  /** lhs times rhs, through lhs, 3 * lhs and 7 * lhs. */
  method MultiplyGeneric(lhs: seq<Limb>, rhs: seq<Limb>) returns (res: seq<Limb>)
    requires 1 <= |rhs| <= |lhs|
    ensures |res| == |lhs| && Value(res) == (Value(lhs) * Value(rhs)) % Modulus(|lhs|)
  {
    var n := |lhs|;
    ghost var b := Extended(rhs, n);
    var lhs2, lhs3 := Multiples(lhs);
    res := Zeros(n);
    RangeZero(res, 0, n);
    for i := 0 to n
      invariant |res| == n && Accumulated(res, 0, Value(lhs), Range(b, 0, i))
    {
      res := AddItem(res, lhs, lhs2, lhs3, b, GetItem(rhs, i), i);
    }
    ExtendedValue(rhs, n);
  }

  method AddItem(before: seq<Limb>, lhs: seq<Limb>, lhs2: seq<Limb>, lhs3: seq<Limb>, ghost b: seq<Limb>, item: Limb,
                 i: nat) returns (res: seq<Limb>)
    requires |lhs| == |lhs2| == |lhs3| == |before| == |b| > i && item == b[i]
    requires Value(lhs2) == (3 * Value(lhs)) % Modulus(|lhs|) && Value(lhs3) == (7 * Value(lhs)) % Modulus(|lhs|)
    requires Accumulated(before, 0, Value(lhs), Range(b, 0, i))
    ensures |res| == |lhs| && Accumulated(res, 0, Value(lhs), Range(b, 0, i + 1))
  {
    NextItem(b, i);
    res := MultiplyItem(before, lhs, lhs2, lhs3, item, i * BASE_BITS);
    AccumulateItem(before, res, Value(lhs), Range(b, 0, i), item * Pow2(i * BASE_BITS));
  }

  method Multiples(lhs: seq<Limb>) returns (lhs2: seq<Limb>, lhs3: seq<Limb>)
    requires lhs != []
    ensures |lhs2| == |lhs3| == |lhs|
    ensures Value(lhs2) == (3 * Value(lhs)) % Modulus(|lhs|) && Value(lhs3) == (7 * Value(lhs)) % Modulus(|lhs|)
  {
    ghost var l := Value(lhs);
    SmallValue(lhs);
    assert Pow2(1) == 2 && Pow2(2) == 4;
    lhs2 := AddShifted(lhs, lhs, 1, 1, l, 0, 1);
    lhs3 := AddShifted(lhs2, lhs, 2, 1, l, 0, 3);
  }

  lemma NextItem(b: seq<Limb>, i: nat)
    requires i < |b|
    ensures Range(b, 0, i + 1) == Range(b, 0, i) + b[i] * Pow2(i * BASE_BITS)
    ensures b[i] * Pow2(i * BASE_BITS) < Modulus(|b|)
  {
    RangeSplit(b, 0, i, i + 1);
    ModulusIsPow2(i);
    assert Range(b, i, i + 1) == b[i];
    assert Modulus(i + 1) <= Modulus(|b|) by {
      ModulusAdd(i + 1, |b| - i - 1);
      MulLe(1, Modulus(|b| - i - 1), Modulus(i + 1));
    }
    ItemBound(b[i], Modulus(i));
  }

  lemma ItemBound(x: nat, m: nat)
    requires x < BASE && m > 0
    ensures x * m < BASE * m
  {
    MulLe(x + 1, BASE, m);
  }

  lemma AccumulateItem(before: seq<Limb>, after: seq<Limb>, l: nat, done: nat, more: nat)
    requires |before| == |after| && Accumulated(before, 0, l, done) && Accumulated(after, Value(before), l, more)
    ensures Accumulated(after, 0, l, done + more)
  {
    ModReduce(1, l * done, l * more, Modulus(|before|));
    assert l * (done + more) == l * done + l * more;
  }

  // ---------------------------------------------------------------- 128 bits

  /** Two limbs are multiplied by the 128-bit type of the compiler. */
  method Multiply128(lhs: seq<Limb>, rhs: seq<Limb>) returns (res: seq<Limb>)
    requires |lhs| == 2 && |rhs| == 2
    ensures |res| == 2 && Value(res) == (Value(lhs) * Value(rhs)) % Modulus(2)
  {
    var a: Half, b: Half := lhs[1] * BASE + lhs[0], rhs[1] * BASE + rhs[0];
    TwoLimbs(lhs);
    TwoLimbs(rhs);
    var c := Wrap(a * b);
    res := [c % BASE, c / BASE];
    TwoLimbs(res);
  }

  lemma TwoLimbs(s: seq<Limb>)
    requires |s| == 2
    ensures Value(s) == s[0] + BASE * s[1] && Modulus(2) == HALF
  {
  }

  // ---------------------------------------------------------------- the operator

  /** The product of magnitudes, negated when the signs differ: the product of the signed numbers modulo 2^N. */
  method Star(lhs: seq<Limb>, rhs: seq<Limb>, signed: bool) returns (res: seq<Limb>)
    requires |rhs| == |lhs| > 0
    ensures |res| == |lhs| && Value(res) == (Signed(lhs, signed) * Signed(rhs, signed)) % Modulus(|lhs|)
  {
    var a := MakePositive(lhs, signed);
    var b := MakePositive(rhs, signed);
    if |lhs| == 4 {
      res := Multiply256(a, b);
    } else if |lhs| == 2 {
      res := Multiply128(a, b);
    } else {
      res := MultiplyGeneric(a, b);
    }
    SignRule(lhs, rhs, signed, Value(a), Value(b));
    if IsNegative(lhs, signed) != IsNegative(rhs, signed) {
      res := UnaryMinus(res);
    }
  }

  lemma SignRule(lhs: seq<Limb>, rhs: seq<Limb>, signed: bool, a: nat, b: nat)
    requires a == if Signed(lhs, signed) < 0 then -Signed(lhs, signed) else Signed(lhs, signed)
    requires b == if Signed(rhs, signed) < 0 then -Signed(rhs, signed) else Signed(rhs, signed)
    ensures var p, m := Signed(lhs, signed) * Signed(rhs, signed), Modulus(|lhs|);
            if IsNegative(lhs, signed) != IsNegative(rhs, signed)
            then (-((a * b) % m)) % m == p % m else (a * b) % m == p % m
  {
    ValueBound(lhs);
    ValueBound(rhs);
    MagnitudeProduct(Signed(lhs, signed), Signed(rhs, signed), a, b);
    NegatedResidue(a * b, Modulus(|lhs|));
  }

  lemma MagnitudeProduct(x: int, y: int, a: int, b: int)
    requires a == (if x < 0 then -x else x) && b == (if y < 0 then -y else y)
    ensures a * b == if (x < 0) != (y < 0) then -(x * y) else x * y
  {
    assert (-x) * y == -(x * y) && x * (-y) == -(x * y) && (-x) * (-y) == x * y;
  }

  lemma NegatedResidue(z: int, m: nat)
    requires m > 0
    ensures (-(z % m)) % m == (-z) % m
  {
    ModReduce(-1, z, 0, m);
  }
}
