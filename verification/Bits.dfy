/** Machine words as natural numbers: powers of two, the bits of a number and the bitwise operators. */
module Bits {

  function Pow2(n: nat): (p: nat)
    ensures p >= 1
  {
    if n == 0 then 1 else 2 * Pow2(n - 1)
  }

  lemma {:induction false} Pow2Add(x: nat, y: nat)
    ensures Pow2(x + y) == Pow2(x) * Pow2(y)
  {
    if x > 0 {
      Pow2Add(x - 1, y);
      MulAssociative(2, Pow2(x - 1), Pow2(y));
    }
  }

  lemma {:induction false} Pow2Monotone(x: nat, y: nat)
    requires x <= y
    ensures Pow2(x) <= Pow2(y)
    ensures x < y ==> 2 * Pow2(x) <= Pow2(y)
  {
    if x < y { Pow2Monotone(x, y - 1); }
  }

  lemma MulAssociative(x: int, y: int, z: int)
    ensures x * (y * z) == (x * y) * z
  {
  }

  lemma MulLe(x: int, y: int, k: nat)
    requires x <= y
    ensures x * k <= y * k && k * x <= k * y
  {
  }

  // ---------------------------------------------------------------- division and remainder

  /** Quotient and remainder are determined by q * m + r with r in range. */
  lemma DivModUnique(x: int, m: nat, q: int, r: int)
    requires m > 0 && x == q * m + r && 0 <= r < m
    ensures x / m == q && x % m == r
  {
    var q', r' := x / m, x % m;
    assert x == q' * m + r' && 0 <= r' < m;
    assert (q - q') * m == r' - r;
    if q > q' { MulLe(1, q - q', m); } else if q < q' { MulLe(q - q', -1, m); }
  }

  lemma ModAddMultiple(x: int, k: int, m: nat)
    requires m > 0
    ensures (x + k * m) % m == x % m && (x + k * m) / m == x / m + k
  {
    assert x + k * m == (x / m + k) * m + x % m;
    DivModUnique(x + k * m, m, x / m + k, x % m);
  }

  /** A sum or product may be reduced before or after. */
  lemma ModReduce(a: int, x: int, b: int, m: nat)
    requires m > 0
    ensures (a * (x % m) + b) % m == (a * x + b) % m
  {
    var q := x / m;
    assert x == q * m + x % m;
    assert a * x + b == (a * (x % m) + b) + (a * q) * m by {
      assert a * (q * m + x % m) == a * (q * m) + a * (x % m);
      MulAssociative(a, q, m);
    }
    ModAddMultiple(a * (x % m) + b, a * q, m);
  }

  lemma ModOfMod(z: int, r: nat, c: nat)
    requires r > 0 && c > 0
    ensures r * c > 0 && (z % (r * c)) % r == z % r
  {
    MulLe(1, c, r);
    var w := r * c;
    var q := z / w;
    assert q * w == (q * c) * r;
    ModAddMultiple(z % w, q * c, r);
  }

  lemma DivDiv(x: nat, a: nat, b: nat)
    requires a > 0 && b > 0
    ensures a * b > 0 && (x / a) / b == x / (a * b)
  {
    var q := (x / a) / b;
    var r := (x / a) % b;
    MulLe(1, b, a);
    assert x / a == q * b + r;
    assert x == (q * b + r) * a + x % a;
    assert (q * b + r) * a == q * (a * b) + r * a;
    MulLe(r + 1, b, a);
    assert (r + 1) * a == r * a + a && b * a == a * b;
    MulLe(0, r, a);
    DivModUnique(x, a * b, q, r * a + x % a);
  }

  // ---------------------------------------------------------------- bits

  predicate Bit(x: nat, i: nat) {
    if i == 0 then x % 2 == 1 else Bit(x / 2, i - 1)
  }

  /** Numbers with the same bits are equal. */
  lemma {:induction false} SameBits(x: nat, y: nat)
    requires forall i: nat :: Bit(x, i) == Bit(y, i)
    ensures x == y
    decreases x + y
  {
    assert Bit(x, 0) == Bit(y, 0);
    if x > 0 || y > 0 {
      forall i: nat ensures Bit(x / 2, i) == Bit(y / 2, i) {
        assert Bit(x, i + 1) == Bit(y, i + 1);
      }
      SameBits(x / 2, y / 2);
    }
  }

  lemma {:induction false} ZeroBits(i: nat)
    ensures !Bit(0, i)
  {
    if i > 0 { ZeroBits(i - 1); }
  }

  lemma {:induction false} BitsBelow(x: nat, n: nat, i: nat)
    requires x < Pow2(n) && i >= n
    ensures !Bit(x, i)
  {
    if n == 0 { ZeroBits(i); } else { BitsBelow(x / 2, n - 1, i - 1); }
  }

  /** Shift right by s places. */
  function Shr(x: nat, s: nat): (y: nat)
    ensures y <= x
  {
    if s == 0 then x else Shr(x / 2, s - 1)
  }

  lemma {:induction false} ShrIsDiv(x: nat, s: nat)
    ensures Shr(x, s) == x / Pow2(s)
  {
    if s > 0 {
      ShrIsDiv(x / 2, s - 1);
      DivDiv(x, 2, Pow2(s - 1));
    }
  }

  /** Shift left by s places, without a limit. */
  function Shl(x: nat, s: nat): nat {
    if s == 0 then x else 2 * Shl(x, s - 1)
  }

  lemma {:induction false} ShlIsMul(x: nat, s: nat)
    ensures Shl(x, s) == x * Pow2(s)
  {
    if s > 0 {
      ShlIsMul(x, s - 1);
      assert x * (2 * Pow2(s - 1)) == 2 * (x * Pow2(s - 1));
    }
  }

  /** The low n bits: what a word of n bits keeps. */
  function Cut(x: nat, n: nat): nat {
    if n == 0 then 0 else x % 2 + 2 * Cut(x / 2, n - 1)
  }

  lemma {:induction false} CutIsMod(x: nat, n: nat)
    ensures Cut(x, n) == x % Pow2(n) < Pow2(n)
  {
    if n > 0 {
      CutIsMod(x / 2, n - 1);
      HalfMod(x, Pow2(n - 1));
    }
  }

  /** Both parts of a number joined from a high and a low part. */
  lemma {:induction false} Joined(hi: nat, lo: nat, s: nat)
    requires lo < Pow2(s)
    ensures Shr(Shl(hi, s) + lo, s) == hi && Cut(Shl(hi, s) + lo, s) == lo
  {
    if s > 0 {
      Joined(hi, lo / 2, s - 1);
      assert (Shl(hi, s) + lo) / 2 == Shl(hi, s - 1) + lo / 2 && (Shl(hi, s) + lo) % 2 == lo % 2;
    }
  }

  lemma {:induction false} ShrShr(x: nat, s: nat, t: nat)
    ensures Shr(Shr(x, s), t) == Shr(x, s + t)
  {
    if s > 0 { ShrShr(x / 2, s - 1, t); }
  }

  /** The high part of a cut number is the cut high part. */
  lemma {:induction false} ShrCut(x: nat, s: nat, t: nat)
    ensures Shr(Cut(x, s + t), s) == Cut(Shr(x, s), t)
  {
    if s > 0 {
      ShrCut(x / 2, s - 1, t);
      assert Cut(x, s + t) / 2 == Cut(x / 2, s + t - 1);
    }
  }

  lemma {:induction false} CutCut(x: nat, s: nat, t: nat)
    requires t <= s
    ensures Cut(Cut(x, s), t) == Cut(x, t)
  {
    if t > 0 {
      CutCut(x / 2, s - 1, t - 1);
      assert Cut(x, s) / 2 == Cut(x / 2, s - 1) && Cut(x, s) % 2 == x % 2;
    }
  }

  lemma {:induction false} BitShr(x: nat, s: nat, i: nat)
    ensures Bit(Shr(x, s), i) == Bit(x, s + i)
  {
    if s > 0 { BitShr(x / 2, s - 1, i); }
  }

  lemma {:induction false} BitMod(x: nat, n: nat, i: nat)
    ensures Bit(x % Pow2(n), i) == (i < n && Bit(x, i))
  {
    if n == 0 {
      ZeroBits(i);
    } else {
      HalfMod(x, Pow2(n - 1));
      if i > 0 { BitMod(x / 2, n - 1, i - 1); }
    }
  }

  lemma HalfMod(x: nat, m: nat)
    requires m > 0
    ensures (x % (2 * m)) / 2 == (x / 2) % m && (x % (2 * m)) % 2 == x % 2
  {
    var q, r := (x / 2) / m, (x / 2) % m;
    assert x == 2 * (q * m + r) + x % 2;
    assert 2 * (q * m) == q * (2 * m);
    DivModUnique(x, 2 * m, q, 2 * r + x % 2);
  }

  // ---------------------------------------------------------------- bitwise operators

  function Xor(x: nat, y: nat): nat {
    if x == 0 && y == 0 then 0
    else 2 * Xor(x / 2, y / 2) + if x % 2 != y % 2 then 1 else 0
  }

  function And(x: nat, y: nat): nat {
    if x == 0 || y == 0 then 0
    else 2 * And(x / 2, y / 2) + if x % 2 == 1 && y % 2 == 1 then 1 else 0
  }

  function Or(x: nat, y: nat): nat {
    if x == 0 && y == 0 then 0
    else 2 * Or(x / 2, y / 2) + if x % 2 == 1 || y % 2 == 1 then 1 else 0
  }

  /** Complement in a word of n bits. */
  function Not(x: nat, n: nat): nat
    requires x < Pow2(n)
  {
    Pow2(n) - 1 - x
  }

  lemma {:induction false} BitXor(x: nat, y: nat, i: nat)
    ensures Bit(Xor(x, y), i) == (Bit(x, i) != Bit(y, i))
  {
    if x == 0 && y == 0 { ZeroBits(i); } else if i > 0 { BitXor(x / 2, y / 2, i - 1); }
  }

  lemma {:induction false} BitAnd(x: nat, y: nat, i: nat)
    ensures Bit(And(x, y), i) == (Bit(x, i) && Bit(y, i))
  {
    if x == 0 || y == 0 { ZeroBits(i); } else if i > 0 { BitAnd(x / 2, y / 2, i - 1); }
  }

  lemma {:induction false} BitOr(x: nat, y: nat, i: nat)
    ensures Bit(Or(x, y), i) == (Bit(x, i) || Bit(y, i))
    decreases i
  {
    var h, b := Or(x / 2, y / 2), if x % 2 == 1 || y % 2 == 1 then 1 else 0;
    OrHalf(x, y);
    BitOfSum(Or(x, y), h, b, i);
    if i > 0 { BitOr(x / 2, y / 2, i - 1); }
  }

  lemma OrHalf(x: nat, y: nat)
    ensures Or(x, y) == 2 * Or(x / 2, y / 2) + if x % 2 == 1 || y % 2 == 1 then 1 else 0
  {
  }

  lemma AndHalf(x: nat, y: nat)
    ensures And(x, y) == 2 * And(x / 2, y / 2) + if x % 2 == 1 && y % 2 == 1 then 1 else 0
  {
  }

  lemma BitOfSum(z: nat, h: nat, b: nat, i: nat)
    requires z == 2 * h + b && b <= 1
    ensures Bit(z, i) == if i == 0 then b == 1 else Bit(h, i - 1)
  {
    assert z / 2 == h && z % 2 == b;
  }

  lemma {:induction false} BitNot(x: nat, n: nat, i: nat)
    requires x < Pow2(n)
    ensures Bit(Not(x, n), i) == (i < n && !Bit(x, i))
  {
    if n == 0 {
      ZeroBits(i);
    } else {
      assert Not(x, n) == 2 * Not(x / 2, n - 1) + (1 - x % 2);
      if i > 0 { BitNot(x / 2, n - 1, i - 1); }
    }
  }

  lemma {:induction false} BitMask(n: nat, i: nat)
    ensures Bit(Pow2(n) - 1, i) == (i < n)
  {
    ZeroBits(i);
    BitNot(0, n, i);
  }

  /** Bitwise results stay within the word. */
  lemma {:induction false} BitwiseBound(x: nat, y: nat, n: nat)
    requires x < Pow2(n) && y < Pow2(n)
    ensures Xor(x, y) < Pow2(n) && Or(x, y) < Pow2(n) && And(x, y) < Pow2(n)
  {
    if n > 0 { BitwiseBound(x / 2, y / 2, n - 1); }
  }

  lemma {:induction false} AndAtMost(x: nat, y: nat)
    ensures And(x, y) <= y
  {
    if x > 0 && y > 0 { AndAtMost(x / 2, y / 2); }
  }

  /** Masking with 2^n - 1 is cutting to n bits, */
  lemma {:induction false} MaskIsCut(x: nat, n: nat)
    ensures And(x, Pow2(n) - 1) == Cut(x, n)
  {
    if n > 0 {
      MaskIsCut(x / 2, n - 1);
      MaskHalf(x, Pow2(n - 1));
    }
  }

  /** which is taking the remainder. */
  lemma AndMask(x: nat, n: nat)
    ensures And(x, Pow2(n) - 1) == x % Pow2(n)
  {
    MaskIsCut(x, n);
    CutIsMod(x, n);
  }

  lemma MaskHalf(x: nat, m: nat)
    requires m > 0
    ensures And(x, 2 * m - 1) == 2 * And(x / 2, m - 1) + x % 2
  {
    AndHalf(x, 2 * m - 1);
    assert (2 * m - 1) / 2 == m - 1 && (2 * m - 1) % 2 == 1;
  }

  lemma {:induction false} OrZero(x: nat)
    ensures Or(x, 0) == x && Or(0, x) == x
  {
    if x > 0 { OrZero(x / 2); }
  }

  /** Or-ing disjoint parts is adding them. */
  lemma OrDisjoint(hi: nat, lo: nat, n: nat)
    requires lo < Pow2(n)
    ensures Or(hi * Pow2(n), lo) == hi * Pow2(n) + lo && Or(lo, hi * Pow2(n)) == hi * Pow2(n) + lo
  {
    ShlIsMul(hi, n);
    OrParts(hi, lo, n, hi * Pow2(n));
  }

  lemma OrParts(hi: nat, lo: nat, n: nat, high: nat)
    requires lo < Pow2(n) && high == Shl(hi, n)
    ensures Or(high, lo) == high + lo == Or(lo, high)
  {
    OrJoinShl(hi, 0, 0, lo, n);
    OrJoinShl(0, lo, hi, 0, n);
    ShlZero(n);
    OrZero(hi);
    OrZero(lo);
  }

  lemma {:induction false} ShlZero(n: nat)
    ensures Shl(0, n) == 0
  {
    if n > 0 { ShlZero(n - 1); }
  }

  /** Testing one bit of x. */
  lemma AndPow2(x: nat, n: nat)
    ensures And(x, Pow2(n)) == if Bit(x, n) then Pow2(n) else 0
  {
    var r := if Bit(x, n) then Pow2(n) else 0;
    forall i: nat ensures Bit(And(x, Pow2(n)), i) == Bit(r, i) {
      BitAnd(x, Pow2(n), i);
      BitPow2(n, i);
      ZeroBits(i);
    }
    SameBits(And(x, Pow2(n)), r);
  }

  lemma {:induction false} BitPow2(n: nat, i: nat)
    ensures Bit(Pow2(n), i) == (i == n)
  {
    if n == 0 {
      if i > 0 { ZeroBits(i - 1); }
    } else if i > 0 {
      BitPow2(n - 1, i - 1);
    }
  }

  /** Bit n is the parity of what is left after shifting n places. */
  lemma {:induction false} BitIsParity(x: nat, n: nat)
    ensures Bit(x, n) == ((x / Pow2(n)) % 2 == 1)
  {
    BitShr(x, n, 0);
    ShrIsDiv(x, n);
  }

  // ---------------------------------------------------------------- high and low parts apart

  ghost predicate Halved(x: nat, y: nat) { true }

  /** op works bit by bit, combining the two bits with `bit`. */
  ghost predicate Bitwise(op: (nat, nat) -> nat, bit: (nat, nat) -> nat) {
    && op(0, 0) == 0
    && forall x: nat, y: nat {:trigger Halved(x, y)} ::
      Halved(x, y) ==> op(x, y) == 2 * op(x / 2, y / 2) + bit(x % 2, y % 2)
  }

  lemma {:induction false} BitwiseJoin(op: (nat, nat) -> nat, bit: (nat, nat) -> nat,
                                       h1: nat, l1: nat, h2: nat, l2: nat, n: nat)
    requires Bitwise(op, bit) && l1 < Pow2(n) && l2 < Pow2(n)
    ensures op(Shl(h1, n) + l1, Shl(h2, n) + l2) == Shl(op(h1, h2), n) + op(l1, l2)
    decreases n
  {
    if n > 0 {
      BitwiseJoin(op, bit, h1, l1 / 2, h2, l2 / 2, n - 1);
      assert Halved(Shl(h1, n) + l1, Shl(h2, n) + l2) && Halved(l1, l2);
    }
  }

  /** Bitwise operations act on the high and the low part separately. */
  lemma BitwiseParts(op: (nat, nat) -> nat, bit: (nat, nat) -> nat, h1: nat, l1: nat, h2: nat, l2: nat, n: nat)
    requires Bitwise(op, bit) && l1 < Pow2(n) && l2 < Pow2(n)
    ensures op(h1 * Pow2(n) + l1, h2 * Pow2(n) + l2) == op(h1, h2) * Pow2(n) + op(l1, l2)
  {
    BitwiseJoin(op, bit, h1, l1, h2, l2, n);
    ShlIsMul(h1, n);
    ShlIsMul(h2, n);
    ShlIsMul(op(h1, h2), n);
  }

  lemma BitwiseOperations()
    ensures Bitwise(Or, (x, y) => if x == 1 || y == 1 then 1 else 0)
    ensures Bitwise(And, (x, y) => if x == 1 && y == 1 then 1 else 0)
  {
  }

  lemma OrJoinShl(h1: nat, l1: nat, h2: nat, l2: nat, n: nat)
    requires l1 < Pow2(n) && l2 < Pow2(n)
    ensures Or(Shl(h1, n) + l1, Shl(h2, n) + l2) == Shl(Or(h1, h2), n) + Or(l1, l2)
  {
    BitwiseOperations();
    BitwiseJoin(Or, (x, y) => if x == 1 || y == 1 then 1 else 0, h1, l1, h2, l2, n);
  }

  lemma OrJoin(h1: nat, l1: nat, h2: nat, l2: nat, n: nat)
    requires l1 < Pow2(n) && l2 < Pow2(n)
    ensures Or(h1 * Pow2(n) + l1, h2 * Pow2(n) + l2) == Or(h1, h2) * Pow2(n) + Or(l1, l2)
  {
    BitwiseOperations();
    BitwiseParts(Or, (x, y) => if x == 1 || y == 1 then 1 else 0, h1, l1, h2, l2, n);
  }

  lemma AndJoin(h1: nat, l1: nat, h2: nat, l2: nat, n: nat)
    requires l1 < Pow2(n) && l2 < Pow2(n)
    ensures And(h1 * Pow2(n) + l1, h2 * Pow2(n) + l2) == And(h1, h2) * Pow2(n) + And(l1, l2)
  {
    BitwiseOperations();
    BitwiseParts(And, (x, y) => if x == 1 && y == 1 then 1 else 0, h1, l1, h2, l2, n);
  }
}
