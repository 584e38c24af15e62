/** The distance between two engine states, and with it the exact period of the generator. */
module PcgDistance {
  import opened Bits
  import opened PcgEngine

  /** Multiplicative generators add zero; their two lowest state bits never change. */
  function FixedBits(mcg: bool): nat {
    if mcg then 2 else 0
  }

  /** What the engine guarantees of its coefficients: multiplier 1 mod 4 and an odd increment, or, for a
      multiplicative generator, multiplier 5 mod 8 and no increment. */
  predicate GoodCoefficients(mcg: bool, mult: nat, plus: nat) {
    if mcg then mult % 8 == 5 && plus == 0 else mult % 4 == 1 && plus % 2 == 1
  }

  /** A state the engine can be in: multiplicative generators keep theirs odd. */
  predicate GoodState(bits: nat, mcg: bool, x: nat) {
    x < Pow2(bits) && (mcg ==> x % 2 == 1)
  }

  ghost predicate AgreeBelow(x: nat, y: nat, n: nat) {
    forall k: nat :: k < n ==> Bit(x, k) == Bit(y, k)
  }

  /** y is x with bit n flipped and the lower bits kept. */
  ghost predicate Flipped(bits: nat, mcg: bool, n: nat, x: nat, y: nat) {
    AgreeBelow(x, y, n) && Bit(y, n) != Bit(x, n) && GoodState(bits, mcg, y)
  }

  /** The coefficients of 2^i steps, with the witnesses t and o: such a step adds 2^(i + fixed bits), up to
      a multiple of twice that. */
  ghost predicate Flips(mcg: bool, mult: nat, plus: nat, i: nat, t: nat, o: nat) {
    && mult == 1 + 4 * Pow2(i) * t
    && plus == Pow2(i) * o
    && if mcg then t % 2 == 1 && o == 0 else o % 2 == 1
  }

  lemma FlipsStart(mcg: bool, mult: nat, plus: nat)
    requires GoodCoefficients(mcg, mult, plus)
    ensures Flips(mcg, mult, plus, 0, mult / 4, plus)
  {
    assert Pow2(0) == 1;
  }

  lemma FlipsNext(mcg: bool, mult: nat, plus: nat, i: nat, t: nat, o: nat) returns (t': nat, o': nat)
    requires Flips(mcg, mult, plus, i, t, o)
    ensures Flips(mcg, mult * mult, (mult + 1) * plus, i + 1, t', o')
  {
    var p := Pow2(i);
    var a, b := p * t * t, p * t * o;
    t', o' := t + 2 * a, o + 2 * b;
    FlipAlgebra(p, t, o);
    if mcg { assert b == 0; }
  }

  lemma FlipAlgebra(p: int, t: int, o: int)
    ensures (1 + 4 * p * t) * (1 + 4 * p * t) == 1 + 4 * (2 * p) * (t + 2 * (p * t * t))
    ensures (1 + 4 * p * t + 1) * (p * o) == (2 * p) * (o + 2 * (p * t * o))
  {
    var a, b := p * t, p * o;
    assert (1 + 4 * a) * (1 + 4 * a) == 1 + 8 * a + 16 * (a * a);
    assert p * (a * t) == a * a;
    assert p * (t + 2 * (a * t)) == a + 2 * (p * (a * t));
    assert (2 + 4 * a) * b == 2 * b + 4 * (a * b);
    assert p * (a * o) == a * b;
    assert p * (o + 2 * (a * o)) == b + 2 * (p * (a * o));
  }

  lemma {:induction false} FlipsSquared(mcg: bool, mult: nat, plus: nat, i: nat) returns (t: nat, o: nat)
    requires GoodCoefficients(mcg, mult, plus)
    ensures Flips(mcg, Squared(mult, plus, i).0, Squared(mult, plus, i).1, i, t, o)
  {
    if i == 0 {
      FlipsStart(mcg, mult, plus);
      t, o := mult / 4, plus;
    } else {
      var t', o' := FlipsSquared(mcg, mult, plus, i - 1);
      t, o := FlipsNext(mcg, Squared(mult, plus, i - 1).0, Squared(mult, plus, i - 1).1, i - 1, t', o');
    }
  }

  lemma FlipBit(bits: nat, mcg: bool, mult: nat, plus: nat, i: nat, t: nat, o: nat, x: nat)
    requires Flips(mcg, mult, plus, i, t, o) && GoodState(bits, mcg, x)
    requires i + FixedBits(mcg) < bits
    ensures Flipped(bits, mcg, i + FixedBits(mcg), x, Bump(bits, mult, plus, x))
  {
    var n := i + FixedBits(mcg);
    var b := Pow2(n);
    var z := x * mult + plus;
    var q := FlipSum(mcg, mult, plus, i, t, o, x);
    var y := Bump(bits, mult, plus, x);
    var q' := ReducedSum(bits, n, z, x + b, q);
    AddedOdd(y, x, b, q');
    BitIsParity(x, n);
    BitIsParity(y, n);
    forall k: nat | k < n ensures Bit(x, k) == Bit(y, k) {
      BitMod(x, n, k);
      BitMod(y, n, k);
    }
    if mcg {
      Pow2Monotone(2, n);
      assert Pow2(n) == 4 * Pow2(i) by { Pow2Add(2, i); assert Pow2(2) == 4; }
      LowBitKept(y, x, 2 * Pow2(i));
    }
  }

  lemma LowBitKept(y: nat, x: nat, h: nat)
    requires h > 0 && y % (2 * h) == x % (2 * h)
    ensures y % 2 == x % 2
  {
    HalfMod(x, h);
    HalfMod(y, h);
  }

  lemma FlipSum(mcg: bool, mult: nat, plus: nat, i: nat, t: nat, o: nat, x: nat) returns (q: nat)
    requires Flips(mcg, mult, plus, i, t, o) && (mcg ==> x % 2 == 1)
    ensures var b := Pow2(i + FixedBits(mcg)); x * mult + plus == x + b + 2 * b * q
  {
    var p := Pow2(i);
    if mcg {
      assert Pow2(i + 2) == 4 * p by { Pow2Add(2, i); assert Pow2(2) == 4; }
      OddProduct(x, t);
      q := (x * t) / 2;
      McgAlgebra(p, t, x, q);
    } else {
      q := o / 2 + 2 * (x * t);
      LcgAlgebra(p, t, o, x, o / 2);
    }
  }

  lemma McgAlgebra(p: int, t: int, x: int, q: int)
    requires x * t == 1 + 2 * q
    ensures x * (1 + 4 * p * t) + p * 0 == x + 4 * p + 2 * (4 * p) * q
  {
    assert x * (p * t) == p * (x * t);
    assert p * (1 + 2 * q) == p + 2 * (p * q);
    assert x * (1 + 4 * (p * t)) == x + 4 * (x * (p * t));
  }

  lemma LcgAlgebra(p: int, t: int, o: int, x: int, h: int)
    requires o == 1 + 2 * h
    ensures x * (1 + 4 * p * t) + p * o == x + p + 2 * p * (h + 2 * (x * t))
  {
    assert x * (p * t) == p * (x * t);
    assert x * (1 + 4 * (p * t)) == x + 4 * (x * (p * t));
    assert p * (1 + 2 * h) == p + 2 * (p * h);
    assert p * (h + 2 * (x * t)) == p * h + 2 * (p * (x * t));
  }

  lemma OddProduct(x: nat, y: nat)
    requires x % 2 == 1 && y % 2 == 1
    ensures (x * y) % 2 == 1
  {
    var a, b := x / 2, y / 2;
    assert x * y == (2 * a + 1) * (2 * b + 1) == 2 * (2 * (a * b) + a + b) + 1;
  }

  /** Reduction modulo 2^bits keeps a sum up to multiples of 2 * 2^n, for n < bits. */
  lemma ReducedSum(bits: nat, n: nat, z: nat, s: int, q: int) returns (q': int)
    requires n < bits && z == s + 2 * Pow2(n) * q
    ensures z % Pow2(bits) == s + 2 * Pow2(n) * q'
  {
    var c, k := Pow2(bits - n - 1), z / Pow2(bits);
    Pow2Add(n + 1, bits - n - 1);
    q' := q - c * k;
    ReducedAlgebra(2 * Pow2(n), c, k, q);
  }

  lemma ReducedAlgebra(d: int, c: int, k: int, q: int)
    ensures d * q - k * (d * c) == d * (q - c * k)
  {
    assert k * (d * c) == d * (c * k);
  }

  lemma AddedOdd(y: nat, x: nat, b: nat, q: int)
    requires b > 0 && y == x + b + 2 * b * q
    ensures y % b == x % b && (y / b) % 2 != (x / b) % 2
  {
    assert y == x + (1 + 2 * q) * b by { assert (1 + 2 * q) * b == b + 2 * b * q; }
    ModAddMultiple(x, 1 + 2 * q, b);
  }

  /** 2^i steps at once. */
  ghost function Jump(f: nat -> nat, i: nat, x: nat): nat {
    Iter(f, x, Pow2(i))
  }

  lemma JumpIsBump(bits: nat, mult: nat, plus: nat, i: nat, x: nat)
    ensures Jump(Lcg(bits, mult, plus), i, x) == Bump(bits, Squared(mult, plus, i).0, Squared(mult, plus, i).1, x)
  {
    SquaredSteps(bits, mult, plus, i, x, 1);
    assert 1 * Pow2(i) == Pow2(i);
  }

  /** The property everything below rests on: 2^i steps flip bit i (bit i + 2 of a multiplicative
      generator) and leave all lower bits alone. */
  ghost predicate Flipping(bits: nat, mcg: bool, f: nat -> nat) {
    forall i: nat, x: nat {:trigger Jump(f, i, x)} ::
      i + FixedBits(mcg) < bits && GoodState(bits, mcg, x) ==> Flipped(bits, mcg, i + FixedBits(mcg), x, Jump(f, i, x))
  }

  lemma LcgFlips(bits: nat, mcg: bool, mult: nat, plus: nat)
    requires GoodCoefficients(mcg, mult, plus)
    ensures Flipping(bits, mcg, Lcg(bits, mult, plus))
  {
    forall i: nat, x: nat | i + FixedBits(mcg) < bits && GoodState(bits, mcg, x)
      ensures Flipped(bits, mcg, i + FixedBits(mcg), x, Jump(Lcg(bits, mult, plus), i, x))
    {
      JumpIsBump(bits, mult, plus, i, x);
      var t, o := FlipsSquared(mcg, mult, plus, i);
      FlipBit(bits, mcg, Squared(mult, plus, i).0, Squared(mult, plus, i).1, i, t, o, x);
    }
  }

  // ---------------------------------------------------------------- distance

  /** The state after the round that examines bit i + fixed. */
  ghost function Corrected(mcg: bool, f: nat -> nat, i: nat, x: nat, y: nat): nat {
    if Bit(x, i + FixedBits(mcg)) != Bit(y, i + FixedBits(mcg)) then Jump(f, i, x) else x
  }

  /** The number of steps the rounds from i on make to get from x to y. */
  ghost function Steps(bits: nat, mcg: bool, f: nat -> nat, i: nat, x: nat, y: nat): nat
    decreases bits - i
  {
    var n := i + FixedBits(mcg);
    if n >= bits then 0
    else Steps(bits, mcg, f, i + 1, Corrected(mcg, f, i, x, y), y) + if Bit(x, n) != Bit(y, n) then Pow2(i) else 0
  }

  lemma AgreeAll(bits: nat, x: nat, y: nat)
    requires x < Pow2(bits) && y < Pow2(bits) && AgreeBelow(x, y, bits)
    ensures x == y
  {
    forall k: nat ensures Bit(x, k) == Bit(y, k) {
      if k >= bits {
        BitsBelow(x, bits, k);
        BitsBelow(y, bits, k);
      }
    }
    SameBits(x, y);
  }

  /** A round makes the examined bit agree without disturbing the lower ones. */
  lemma RoundCorrects(bits: nat, mcg: bool, f: nat -> nat, i: nat, x: nat, y: nat)
    requires Flipping(bits, mcg, f) && GoodState(bits, mcg, x) && i + FixedBits(mcg) < bits
    requires AgreeBelow(x, y, i + FixedBits(mcg))
    ensures GoodState(bits, mcg, Corrected(mcg, f, i, x, y))
    ensures AgreeBelow(Corrected(mcg, f, i, x, y), y, i + 1 + FixedBits(mcg))
  {
    var n := i + FixedBits(mcg);
    if Bit(x, n) != Bit(y, n) {
      assert Flipped(bits, mcg, n, x, Jump(f, i, x));
    }
  }

  /** Steps really lead to y, and there are fewer than 2^(bits - fixed) of them. */
  lemma {:induction false} StepsReach(bits: nat, mcg: bool, f: nat -> nat, i: nat, x: nat, y: nat)
    requires Flipping(bits, mcg, f) && GoodState(bits, mcg, x) && GoodState(bits, mcg, y)
    requires i + FixedBits(mcg) <= bits && AgreeBelow(x, y, i + FixedBits(mcg))
    ensures Iter(f, x, Steps(bits, mcg, f, i, x, y)) == y
    ensures Steps(bits, mcg, f, i, x, y) + Pow2(i) <= Pow2(bits - FixedBits(mcg))
    decreases bits - i
  {
    if i + FixedBits(mcg) == bits {
      AgreeAll(bits, x, y);
    } else {
      RoundCorrects(bits, mcg, f, i, x, y);
      var x' := Corrected(mcg, f, i, x, y);
      StepsReach(bits, mcg, f, i + 1, x', y);
      IterAdd(f, x, Pow2(i), Steps(bits, mcg, f, i + 1, x', y));
    }
  }

  /** The numeric part of the loop invariant of distance(), before the round that examines bit i + fixed: done steps lead
      from x to cur. */
  ghost predicate AtRound(bits: nat, mcg: bool, f: nat -> nat, x: nat, y: nat, i: nat, cur: nat, theBit: nat,
                          distance: nat, done: nat) {
    var n := i + FixedBits(mcg);
    && GoodState(bits, mcg, cur) && n <= bits && (n < bits ==> theBit == Pow2(n))
    && AgreeBelow(cur, y, n)
    && done < Pow2(i) && distance == (if mcg then 4 else 1) * done && distance < Pow2(n)
    && cur == Iter(f, x, done)
  }

  lemma NextRound(bits: nat, mcg: bool, f: nat -> nat, x: nat, y: nat, i: nat, cur: nat, theBit: nat, distance: nat,
                  done: nat, cur': nat, theBit': nat, distance': nat) returns (done': nat)
    requires Flipping(bits, mcg, f) && AtRound(bits, mcg, f, x, y, i, cur, theBit, distance, done)
    requires i + FixedBits(mcg) < bits
    requires cur' == Corrected(mcg, f, i, cur, y) && theBit' == (2 * theBit) % Pow2(bits)
    requires distance' == distance + if Bit(cur, i + FixedBits(mcg)) != Bit(y, i + FixedBits(mcg)) then theBit else 0
    ensures AtRound(bits, mcg, f, x, y, i + 1, cur', theBit', distance', done')
  {
    RoundCorrects(bits, mcg, f, i, cur, y);
    ShiftBit(bits, i + FixedBits(mcg));
    if mcg { Pow2Add(2, i); assert Pow2(2) == 4; }
    done' := done + if Bit(cur, i + FixedBits(mcg)) != Bit(y, i + FixedBits(mcg)) then Pow2(i) else 0;
    IterAdd(f, x, done, Pow2(i));
  }

  lemma ShiftBit(bits: nat, n: nat)
    requires n < bits
    ensures n + 1 < bits ==> (2 * Pow2(n)) % Pow2(bits) == Pow2(n + 1)
  {
    if n + 1 < bits {
      Pow2Monotone(n + 1, bits);
      DivModUnique(2 * Pow2(n), Pow2(bits), 0, 2 * Pow2(n));
    }
  }

  /** Squaring reduced coefficients gives the reduced squared coefficients. */
  lemma SquareReduced(bits: nat, m: nat, p: nat)
    ensures var w := Pow2(bits);
            ((m % w) * (m % w)) % w == (m * m) % w && ((m % w + 1) * (p % w)) % w == ((m + 1) * p) % w
  {
    var w := Pow2(bits);
    ModReduce(m % w, m, 0, w);
    ModReduce(m, m, 0, w);
    assert (m % w) * m == m * (m % w);
    ModReduce(m % w + 1, p, 0, w);
    ModReduce(p, m, p, w);
    assert (m % w + 1) * p == p * (m % w) + p && (m + 1) * p == p * m + p;
  }

  /** The reduced coefficients of every round do the steps they stand for. */
  ghost predicate Realizes(bits: nat, mult: nat, plus: nat, f: nat -> nat) {
    forall i: nat, x: nat {:trigger Jump(f, i, x)} ::
      Jump(f, i, x) == Bump(bits, Squared(mult, plus, i).0 % Pow2(bits), Squared(mult, plus, i).1 % Pow2(bits), x)
  }

  lemma LcgRealizes(bits: nat, mult: nat, plus: nat)
    ensures Realizes(bits, mult, plus, Lcg(bits, mult, plus))
  {
    forall i: nat, x: nat
      ensures Jump(Lcg(bits, mult, plus), i, x)
           == Bump(bits, Squared(mult, plus, i).0 % Pow2(bits), Squared(mult, plus, i).1 % Pow2(bits), x)
    {
      JumpIsBump(bits, mult, plus, i, x);
      BumpReduce(bits, Squared(mult, plus, i).0, Squared(mult, plus, i).1, x);
    }
  }

  /** One round: take the step if the examined bits differ, record it, and move on to the next bit. */
  method Round(bits: nat, mcg: bool, ghost f: nat -> nat, ghost mult: nat, ghost plus: nat, ghost i: nat, cur0: nat, y: nat,
               curMult0: nat, curPlus0: nat, theBit: nat, distance0: nat)
    returns (cur: nat, curMult: nat, curPlus: nat, distance: nat)
    requires Realizes(bits, mult, plus, f)
    requires i + FixedBits(mcg) < bits && theBit == Pow2(i + FixedBits(mcg)) && distance0 < theBit
    requires curMult0 == Squared(mult, plus, i).0 % Pow2(bits) && curPlus0 == Squared(mult, plus, i).1 % Pow2(bits)
    ensures cur == Corrected(mcg, f, i, cur0, y)
    ensures distance == distance0 + if Bit(cur0, i + FixedBits(mcg)) != Bit(y, i + FixedBits(mcg)) then theBit else 0
    ensures curMult == Squared(mult, plus, i + 1).0 % Pow2(bits) && curPlus == Squared(mult, plus, i + 1).1 % Pow2(bits)
  {
    ghost var n := i + FixedBits(mcg);
    cur, distance := cur0, distance0;
    AndPow2(cur, n);
    AndPow2(y, n);
    OrDisjoint(1, distance, n);
    if And(cur, theBit) != And(y, theBit) {
      ghost var jump := Jump(f, i, cur);
      cur := Bump(bits, curMult0, curPlus0, cur);
      distance := Or(distance, theBit);
    }
    SquareReduced(bits, Squared(mult, plus, i).0, Squared(mult, plus, i).1);
    curPlus := ((curMult0 + 1) * curPlus0) % Pow2(bits);
    curMult := (curMult0 * curMult0) % Pow2(bits);
  }

  /** The loop of distance(), for any mask. The asserted equality of the examined bits always holds, and there are at
      most `bits` rounds. */
  method DistanceLoop(bits: nat, mcg: bool, ghost f: nat -> nat, mult: nat, plus: nat, x: nat, y: nat, mask: nat)
    returns (distance: nat, ghost done: nat)
    requires Flipping(bits, mcg, f) && Realizes(bits, mult, plus, f)
    requires mult == mult % Pow2(bits) && plus == plus % Pow2(bits) && y < Pow2(bits)
    requires AtRound(bits, mcg, f, x, y, 0, x, if mcg then 4 else 1, 0, 0)
    ensures distance == (if mcg then 4 else 1) * done && done < Pow2(bits - FixedBits(mcg))
    ensures And(Iter(f, x, done), mask) == And(y, mask)
  {
    var cur: nat, curMult: nat, curPlus: nat, theBit: nat := x, mult, plus, if mcg then 4 else 1;
    distance, done := 0, 0;
    ghost var i := 0;
    while And(cur, mask) != And(y, mask)
      invariant AtRound(bits, mcg, f, x, y, i, cur, theBit, distance, done)
      invariant curMult == Squared(mult, plus, i).0 % Pow2(bits) && curPlus == Squared(mult, plus, i).1 % Pow2(bits)
      decreases bits - i
    {
      RoundsLeft(bits, mcg, f, x, y, i, cur, theBit, distance, done, mask);
      cur, curMult, curPlus, theBit, distance, done :=
        RoundAt(bits, mcg, f, mult, plus, x, y, i, cur, curMult, curPlus, theBit, distance, done);
      i := i + 1;
    }
    Pow2Monotone(i, bits - FixedBits(mcg));
  }

  /** After the last round all bits agree. */
  lemma RoundsLeft(bits: nat, mcg: bool, f: nat -> nat, x: nat, y: nat, i: nat, cur: nat, theBit: nat, distance: nat,
                   done: nat, mask: nat)
    requires AtRound(bits, mcg, f, x, y, i, cur, theBit, distance, done) && y < Pow2(bits)
    requires And(cur, mask) != And(y, mask)
    ensures i + FixedBits(mcg) < bits
  {
    if i + FixedBits(mcg) == bits { AgreeAll(bits, cur, y); }
  }

  /** One turn of the loop. */
  method RoundAt(bits: nat, mcg: bool, ghost f: nat -> nat, ghost mult: nat, ghost plus: nat, ghost x: nat, y: nat,
                 ghost i: nat, cur0: nat, curMult0: nat, curPlus0: nat, theBit0: nat, distance0: nat, ghost done0: nat)
    returns (cur: nat, curMult: nat, curPlus: nat, theBit: nat, distance: nat, ghost done: nat)
    requires Flipping(bits, mcg, f) && Realizes(bits, mult, plus, f) && i + FixedBits(mcg) < bits
    requires AtRound(bits, mcg, f, x, y, i, cur0, theBit0, distance0, done0)
    requires curMult0 == Squared(mult, plus, i).0 % Pow2(bits) && curPlus0 == Squared(mult, plus, i).1 % Pow2(bits)
    ensures AtRound(bits, mcg, f, x, y, i + 1, cur, theBit, distance, done)
    ensures curMult == Squared(mult, plus, i + 1).0 % Pow2(bits) && curPlus == Squared(mult, plus, i + 1).1 % Pow2(bits)
  {
    cur, curMult, curPlus, distance := Round(bits, mcg, f, mult, plus, i, cur0, y, curMult0, curPlus0, theBit0, distance0);
    AgreesAfter(bits, mcg, f, i, cur0, y);
    assert And(cur, theBit0) == And(y, theBit0);
    theBit := (2 * theBit0) % Pow2(bits);
    done := NextRound(bits, mcg, f, x, y, i, cur0, theBit0, distance0, done0, cur, theBit, distance);
  }

  /** distance(): a number of steps from x to a state that is y under the mask; with the full mask, to y itself. */
  method Distance(bits: nat, mcg: bool, mult: nat, plus: nat, x: nat, y: nat, mask: nat) returns (d: nat)
    requires GoodCoefficients(mcg, mult, plus) && GoodState(bits, mcg, x) && GoodState(bits, mcg, y)
    requires mult < Pow2(bits) && plus < Pow2(bits) && FixedBits(mcg) <= bits
    requires mcg ==> x % 4 == y % 4
    ensures And(Iterate(bits, mult, plus, x, d), mask) == And(y, mask) && d < Pow2(bits - FixedBits(mcg))
    ensures mask == Pow2(bits) - 1 ==> Iterate(bits, mult, plus, x, d) == y
  {
    Start(bits, mcg, mult, plus, x, y);
    DivModUnique(mult, Pow2(bits), 0, mult);
    DivModUnique(plus, Pow2(bits), 0, plus);
    LcgRealizes(bits, mult, plus);
    var distance: nat;
    ghost var done: nat;
    distance, done := DistanceLoop(bits, mcg, Lcg(bits, mult, plus), mult, plus, x, y, mask);
    d := if mcg then distance / 4 else distance;
    assert d == done;
    FullMask(bits, mult, plus, x, d, y);
  }

  lemma {:induction false} IterateBound(bits: nat, mult: nat, plus: nat, x: nat, n: nat)
    requires x < Pow2(bits)
    ensures Iterate(bits, mult, plus, x, n) < Pow2(bits)
    decreases n
  {
    if n > 0 { IterateBound(bits, mult, plus, Bump(bits, mult, plus, x), n - 1); }
  }

  lemma FullMask(bits: nat, mult: nat, plus: nat, x: nat, d: nat, y: nat)
    requires x < Pow2(bits) && y < Pow2(bits)
    ensures And(Iterate(bits, mult, plus, x, d), Pow2(bits) - 1) == And(y, Pow2(bits) - 1)
            ==> Iterate(bits, mult, plus, x, d) == y
  {
    var z := Iterate(bits, mult, plus, x, d);
    IterateBound(bits, mult, plus, x, d);
    AndMask(z, bits);
    AndMask(y, bits);
    DivModUnique(z, Pow2(bits), 0, z);
    DivModUnique(y, Pow2(bits), 0, y);
  }

  lemma AgreesAfter(bits: nat, mcg: bool, f: nat -> nat, i: nat, x: nat, y: nat)
    requires Flipping(bits, mcg, f) && GoodState(bits, mcg, x) && i + FixedBits(mcg) < bits
    ensures var b := Pow2(i + FixedBits(mcg)); And(Corrected(mcg, f, i, x, y), b) == And(y, b)
  {
    AndPow2(Corrected(mcg, f, i, x, y), i + FixedBits(mcg));
    AndPow2(y, i + FixedBits(mcg));
    assert Bit(x, i + FixedBits(mcg)) != Bit(y, i + FixedBits(mcg)) ==>
             Flipped(bits, mcg, i + FixedBits(mcg), x, Jump(f, i, x));
  }

  lemma Start(bits: nat, mcg: bool, mult: nat, plus: nat, x: nat, y: nat)
    requires GoodCoefficients(mcg, mult, plus) && GoodState(bits, mcg, x) && GoodState(bits, mcg, y)
    requires FixedBits(mcg) <= bits && (mcg ==> x % 4 == y % 4)
    ensures Flipping(bits, mcg, Lcg(bits, mult, plus))
    ensures AtRound(bits, mcg, Lcg(bits, mult, plus), x, y, 0, x, if mcg then 4 else 1, 0, 0)
  {
    LcgFlips(bits, mcg, mult, plus);
    FirstRound(bits, mcg, Lcg(bits, mult, plus), x, y);
  }

  lemma FirstRound(bits: nat, mcg: bool, f: nat -> nat, x: nat, y: nat)
    requires GoodState(bits, mcg, x) && FixedBits(mcg) <= bits && (mcg ==> x % 4 == y % 4)
    ensures AtRound(bits, mcg, f, x, y, 0, x, if mcg then 4 else 1, 0, 0)
  {
    assert Pow2(2) == 4 && Pow2(0) == 1;
    if mcg { LowBitsAgree(x, y); }
  }

  lemma LowBitsAgree(x: nat, y: nat)
    requires x % 4 == y % 4
    ensures AgreeBelow(x, y, 2)
  {
    assert Bit(x, 0) == Bit(y, 0) && Bit(x, 1) == Bit(y, 1);
  }
}
