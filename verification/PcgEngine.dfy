/** The linear congruential core of the PCG engines at any word width: skip-ahead, skip-back, distance and
    period. A state is a number below 2^bits and all arithmetic is modulo 2^bits. */
module PcgEngine {
  import opened Bits

  /** bump: state * multiplier + increment, wrapping. */
  function Bump(bits: nat, mult: nat, plus: nat, x: nat): (y: nat)
    ensures y < Pow2(bits)
  {
    (x * mult + plus) % Pow2(bits)
  }

  /** n applications of a state transition. */
  function Iter(f: nat -> nat, x: nat, n: nat): nat
    decreases n
  {
    if n == 0 then x else Iter(f, f(x), n - 1)
  }

  lemma {:induction false} IterAdd(f: nat -> nat, x: nat, m: nat, n: nat)
    ensures Iter(f, x, m + n) == Iter(f, Iter(f, x, m), n)
    decreases m
  {
    if m > 0 { IterAdd(f, f(x), m - 1, n); }
  }

  function Lcg(bits: nat, mult: nat, plus: nat): nat -> nat {
    (x: nat) => Bump(bits, mult, plus, x)
  }

  /** n calls of bump. */
  function Iterate(bits: nat, mult: nat, plus: nat, x: nat, n: nat): nat {
    Iter(Lcg(bits, mult, plus), x, n)
  }

  lemma IterateAdd(bits: nat, mult: nat, plus: nat, x: nat, m: nat, n: nat)
    ensures Iterate(bits, mult, plus, x, m + n) == Iterate(bits, mult, plus, Iterate(bits, mult, plus, x, m), n)
  {
    IterAdd(Lcg(bits, mult, plus), x, m, n);
  }

  /** Coefficients matter only modulo 2^bits, and so does the argument. */
  lemma BumpReduce(bits: nat, mult: nat, plus: nat, x: nat)
    ensures Bump(bits, mult % Pow2(bits), plus % Pow2(bits), x) == Bump(bits, mult, plus, x)
    ensures Bump(bits, mult, plus, x % Pow2(bits)) == Bump(bits, mult, plus, x)
  {
    var m := Pow2(bits);
    var p, q := plus % m, x * mult;
    ModReduce(x, mult, p, m);
    ModReduce(1, plus, q, m);
    assert 1 * p + q == q + p && 1 * plus + q == q + plus;
    ModReduce(mult, x, plus, m);
    assert mult * (x % m) == (x % m) * mult && mult * x == q;
  }

  lemma {:induction false} IterateReduce(bits: nat, mult: nat, plus: nat, x: nat, n: nat)
    ensures Iterate(bits, mult % Pow2(bits), plus % Pow2(bits), x, n) == Iterate(bits, mult, plus, x, n)
    decreases n
  {
    if n > 0 {
      BumpReduce(bits, mult, plus, x);
      IterateReduce(bits, mult, plus, Bump(bits, mult, plus, x), n - 1);
    }
  }

  /** One step of a composed map is two steps: first (m1, p1), then (m2, p2). */
  lemma BumpCompose(bits: nat, m1: nat, p1: nat, m2: nat, p2: nat, x: nat)
    ensures Bump(bits, m1 * m2, p1 * m2 + p2, x) == Bump(bits, m2, p2, Bump(bits, m1, p1, x))
  {
    var y := x * m1 + p1;
    ModReduce(m2, y, p2, Pow2(bits));
    assert x * (m1 * m2) + (p1 * m2 + p2) == m2 * y + p2 by {
      MulAssociative(x, m1, m2);
      assert m2 * y == (x * m1) * m2 + p1 * m2;
    }
    assert (y % Pow2(bits)) * m2 + p2 == m2 * (y % Pow2(bits)) + p2;
  }

  /** The squared map makes two steps at a time. */
  lemma {:induction false} IterateSquare(bits: nat, mult: nat, plus: nat, x: nat, n: nat)
    ensures Iterate(bits, mult * mult, (mult + 1) * plus, x, n) == Iterate(bits, mult, plus, x, 2 * n)
    decreases n
  {
    if n > 0 {
      assert (mult + 1) * plus == plus * mult + plus;
      BumpCompose(bits, mult, plus, mult, plus, x);
      var f := Lcg(bits, mult, plus);
      IterateSquare(bits, mult, plus, f(f(x)), n - 1);
      assert Iter(f, x, 2 * n) == Iter(f, f(x), 2 * n - 1) == Iter(f, f(f(x)), 2 * (n - 1));
    }
  }

  // ---------------------------------------------------------------- advance

  /** Skip-ahead in as many rounds as delta has bits. */
  method Advance(bits: nat, state: nat, delta0: nat, mult: nat, plus: nat) returns (r: nat)
    requires state < Pow2(bits) && mult < Pow2(bits) && plus < Pow2(bits)
    ensures r == Iterate(bits, mult, plus, state, delta0)
  {
    var m := Pow2(bits);
    var curMult: nat, curPlus: nat, accMult: nat, accPlus: nat, delta: nat := mult, plus, 1 % m, 0, delta0;
    BumpIdentity(bits, state);
    while delta > 0
      invariant Iterate(bits, curMult, curPlus, Bump(bits, accMult, accPlus, state), delta) == Iterate(bits, mult, plus, state, delta0)
    {
      if And(delta, 1) != 0 {
        AdvanceOdd(bits, state, accMult, accPlus, curMult, curPlus, delta);
        accPlus := (accPlus * curMult + curPlus) % m;
        accMult := (accMult * curMult) % m;
      }
      ghost var odd := if And(delta, 1) != 0 then 1 else 0;
      LowBit(delta);
      var next := Bump(bits, accMult, accPlus, state);
      AdvanceSquare(bits, curMult, curPlus, next, delta / 2);
      curPlus := ((curMult + 1) * curPlus) % m;
      curMult := (curMult * curMult) % m;
      delta := delta / 2;
    }
    r := (accMult * state + accPlus) % m;
    assert accMult * state == state * accMult;
  }

  lemma BumpIdentity(bits: nat, x: nat)
    requires x < Pow2(bits)
    ensures Bump(bits, 1 % Pow2(bits), 0, x) == x
  {
    BumpReduce(bits, 1, 0, x);
    DivModUnique(x * 1 + 0, Pow2(bits), 0, x);
    assert 0 % Pow2(bits) == 0;
  }

  lemma LowBit(n: nat)
    ensures And(n, 1) != 0 <==> n % 2 == 1
  {
  }

  lemma AdvanceOdd(bits: nat, x: nat, accMult: nat, accPlus: nat, curMult: nat, curPlus: nat, delta: nat)
    requires delta > 0
    ensures var m := Pow2(bits);
            Iterate(bits, curMult, curPlus, Bump(bits, (accMult * curMult) % m, (accPlus * curMult + curPlus) % m, x), delta - 1)
            == Iterate(bits, curMult, curPlus, Bump(bits, accMult, accPlus, x), delta)
  {
    BumpReduce(bits, accMult * curMult, accPlus * curMult + curPlus, x);
    BumpCompose(bits, accMult, accPlus, curMult, curPlus, x);
  }

  lemma AdvanceSquare(bits: nat, curMult: nat, curPlus: nat, x: nat, half: nat)
    ensures var m := Pow2(bits);
            Iterate(bits, (curMult * curMult) % m, ((curMult + 1) * curPlus) % m, x, half)
            == Iterate(bits, curMult, curPlus, x, 2 * half)
  {
    IterateReduce(bits, curMult * curMult, (curMult + 1) * curPlus, x, half);
    IterateSquare(bits, curMult, curPlus, x, half);
  }

  // ---------------------------------------------------------------- repeated squaring without reduction

  /** Multiplier and increment of 2^i steps, as plain integers. */
  ghost function Squared(mult: nat, plus: nat, i: nat): (nat, nat) {
    if i == 0 then (mult, plus)
    else
      var (m, p) := Squared(mult, plus, i - 1);
      (m * m, (m + 1) * p)
  }

  lemma {:induction false} SquaredSteps(bits: nat, mult: nat, plus: nat, i: nat, x: nat, n: nat)
    ensures Iterate(bits, Squared(mult, plus, i).0, Squared(mult, plus, i).1, x, n) == Iterate(bits, mult, plus, x, n * Pow2(i))
    decreases i
  {
    if i > 0 {
      var (m, p) := Squared(mult, plus, i - 1);
      IterateSquare(bits, m, p, x, n);
      SquaredSteps(bits, mult, plus, i - 1, x, 2 * n);
      MulAssociative(n, 2, Pow2(i - 1));
    }
  }

  lemma SquareAlgebra(p: int, u: int)
    ensures (1 + 2 * p * u) * (1 + 2 * p * u) == 1 + 2 * (2 * p) * (u + p * u * u)
  {
    var a := p * u;
    assert (1 + 2 * a) * (1 + 2 * a) == 1 + 4 * a + 4 * (a * a);
    assert p * (p * u * u) == a * a by {
      assert p * u * u == a * u;
      assert p * (a * u) == a * (p * u);
    }
    assert 2 * (2 * p) * (u + p * u * u) == 4 * (p * u) + 4 * (p * (p * u * u));
  }

  lemma PlusAlgebra(p: int, u: int, o: int)
    ensures (1 + 2 * p * u + 1) * (p * o) == (2 * p) * ((1 + p * u) * o)
  {
    var a, b := p * u, p * o;
    assert (2 + 2 * a) * b == 2 * b + 2 * (a * b);
    assert p * ((1 + a) * o) == b + p * (a * o);
    assert p * (a * o) == a * b;
  }

  /** x * (1 + k w) + w o is x plus a multiple of w. */
  lemma StepAlgebra(x: int, k: int, w: int, o: int)
    ensures x * (1 + k * w) + w * o == x + (x * k + o) * w
  {
    MulAssociative(x, k, w);
    assert x * (1 + k * w) == x + x * (k * w);
  }

  /** For an odd multiplier, 2^i steps multiply by 1 and add 0, up to a multiple of 2^i. */
  lemma {:induction false} SquaredOdd(mult: nat, plus: nat, i: nat) returns (u: nat, o: nat)
    requires mult % 2 == 1
    ensures Squared(mult, plus, i).0 == 1 + 2 * Pow2(i) * u
    ensures Squared(mult, plus, i).1 == Pow2(i) * o
  {
    if i == 0 {
      u, o := mult / 2, plus;
    } else {
      var u', o' := SquaredOdd(mult, plus, i - 1);
      var p := Pow2(i - 1);
      u, o := u' + p * u' * u', (1 + p * u') * o';
      SquareAlgebra(p, u');
      PlusAlgebra(p, u', o');
    }
  }

  /** 2^bits steps of an odd multiplier come back to the start. */
  lemma FullCircle(bits: nat, mult: nat, plus: nat, x: nat)
    requires mult % 2 == 1 && x < Pow2(bits)
    ensures Iterate(bits, mult, plus, x, Pow2(bits)) == x
  {
    var u, o := SquaredOdd(mult, plus, bits);
    SquaredSteps(bits, mult, plus, bits, x, 1);
    assert 2 * Pow2(bits) * u == (2 * u) * Pow2(bits);
    NearIdentity(bits, 2 * u, o, x);
    assert 1 * Pow2(bits) == Pow2(bits);
  }

  lemma NearIdentity(bits: nat, k: nat, o: nat, x: nat)
    requires x < Pow2(bits)
    ensures Bump(bits, 1 + k * Pow2(bits), Pow2(bits) * o, x) == x
  {
    var w := Pow2(bits);
    StepAlgebra(x, k, w, o);
    ModAddMultiple(x, x * k + o, w);
    DivModUnique(x, w, 0, x);
  }

  /** backstep(delta) is advance(-delta) with the negation taken modulo 2^bits. */
  function Negated(bits: nat, delta: nat): nat {
    (Pow2(bits) - delta % Pow2(bits)) % Pow2(bits)
  }

  lemma BackstepUndoesAdvance(bits: nat, mult: nat, plus: nat, x: nat, delta: nat)
    requires mult % 2 == 1 && x < Pow2(bits) && delta < Pow2(bits)
    ensures Iterate(bits, mult, plus, Iterate(bits, mult, plus, x, delta), Negated(bits, delta)) == x
    ensures Iterate(bits, mult, plus, Iterate(bits, mult, plus, x, Negated(bits, delta)), delta) == x
  {
    var w := Pow2(bits);
    DivModUnique(delta, w, 0, delta);
    if delta == 0 {
      DivModUnique(w, w, 1, 0);
    } else {
      DivModUnique(w - delta, w, 0, w - delta);
      IterateAdd(bits, mult, plus, x, delta, w - delta);
      IterateAdd(bits, mult, plus, x, w - delta, delta);
      FullCircle(bits, mult, plus, x);
    }
  }

  /** Skipping back undoes skipping ahead from every state exactly when the multiplier is odd: an even one
      sends 0 and 2^(bits - 1) to the same state. */
  lemma BackstepNeedsOddMultiplier(bits: nat, mult: nat, plus: nat)
    requires bits >= 1
    ensures (forall x, delta :: 0 <= x < Pow2(bits) && 0 <= delta < Pow2(bits) ==>
               Iterate(bits, mult, plus, Iterate(bits, mult, plus, x, delta), Negated(bits, delta)) == x)
            <==> mult % 2 == 1
  {
    if mult % 2 == 1 {
      forall x, delta | 0 <= x < Pow2(bits) && 0 <= delta < Pow2(bits)
        ensures Iterate(bits, mult, plus, Iterate(bits, mult, plus, x, delta), Negated(bits, delta)) == x
      {
        BackstepUndoesAdvance(bits, mult, plus, x, delta);
      }
    } else {
      var half := Pow2(bits - 1);
      EvenMultiplierMerges(bits, mult, plus);
      assert Iterate(bits, mult, plus, Iterate(bits, mult, plus, 0, 1), Negated(bits, 1)) != 0
          || Iterate(bits, mult, plus, Iterate(bits, mult, plus, half, 1), Negated(bits, 1)) != half;
    }
  }

  lemma EvenMultiplierMerges(bits: nat, mult: nat, plus: nat)
    requires bits >= 1 && mult % 2 == 0
    ensures Iterate(bits, mult, plus, 0, 1) == Iterate(bits, mult, plus, Pow2(bits - 1), 1)
  {
    var half := Pow2(bits - 1);
    assert half * mult == (mult / 2) * Pow2(bits) by {
      assert mult == 2 * (mult / 2);
      MulAssociative(half, 2, mult / 2);
    }
    ModAddMultiple(plus, mult / 2, Pow2(bits));
    assert Iterate(bits, mult, plus, 0, 1) == Bump(bits, mult, plus, 0);
    assert Iterate(bits, mult, plus, half, 1) == Bump(bits, mult, plus, half);
  }
}
