/** Fast conversion of machine integers to decimal text: division by multiplying with a reciprocal, digits emitted
    from the head and from the tail of the number. */
module Itoa {
  import opened Bits
  import opened Decimal

  // ---------------------------------------------------------------- division by 10^N

  /** Sizes of types in bytes: powers of two. */
  predicate IsSize(n: nat) {
    n == 1 || (n > 1 && n % 2 == 0 && IsSize(n / 2))
  }

  lemma SizeCases(n: nat)
    requires IsSize(n) && n <= 8
    ensures n == 1 || n == 2 || n == 4 || n == 8
  {
  }

  /** One more than the largest value of n bytes. */
  function TypeSize(n: nat): (s: nat)
    ensures s > 0
  {
    if n == 1 then 0x100 else if n == 2 then 0x1_0000 else if n == 4 then 0x1_0000_0000
    else if n == 8 then 0x1_0000_0000_0000_0000 else 0x1_0000_0000_0000_0000_0000_0000_0000_0000
  }

  /** Conversion to an unsigned type of n bytes. */
  function Truncate(x: int, n: nat): nat {
    x % TypeSize(n)
  }

  /** Add, multiply, then shift to the right, which is division by scale = 2^shift. */
  datatype Division = Division(add: nat, multiplier: nat, shift: nat, scale: nat)

  function DivisionBy10PowN(n: nat): Division {
    if n == 2 then Division(1, 41943, 22, 0x40_0000)
    else if n == 4 then Division(0, 3518437209, 45, 0x2000_0000_0000)
    else Division(0, 12379400392853802749, 90, 0x400_0000_0000_0000_0000_0000)
  }

  datatype QuotientAndRemainder = QuotientAndRemainder(quotient: nat, remainder: nat)

  function Split(n: nat, value: nat): QuotientAndRemainder
    requires IsSize(n) && 1 < n <= 8
  {
    var d := DivisionBy10PowN(n);
    var quotient := Truncate(Truncate(d.multiplier * (value + d.add), 2 * n) / d.scale, n);
    QuotientAndRemainder(quotient, Truncate(Truncate(value - quotient * Pow10(n), n), n / 2))
  }

  lemma ShiftPowers()
    ensures Pow2(22) == 0x40_0000 && Pow2(45) == 0x2000_0000_0000 && Pow2(90) == 0x400_0000_0000_0000_0000_0000
  {
    assert Pow2(11) == 0x800;
    Pow2Add(11, 11);
    Pow2Add(22, 22);
    Pow2Add(1, 44);
    Pow2Add(45, 45);
  }

  /** The scales are the powers of two that the shifts stand for. */
  lemma ScaleIsShift(n: nat)
    requires IsSize(n) && 1 < n <= 8
    ensures DivisionBy10PowN(n).scale == Pow2(DivisionBy10PowN(n).shift)
  {
    ShiftPowers();
  }

  lemma PowersOfTen()
    ensures Pow10(1) == 10 && Pow10(2) == 100 && Pow10(4) == 10000 && Pow10(8) == 100000000
    ensures Pow10(16) == 10000000000000000
  {
  }

  lemma ReciprocalOf100(v: nat)
    requires v < 0x1_0000
    ensures (41943 * (v + 1)) / 0x40_0000 == v / 100
  {
    var q, r := v / 100, v % 100;
    DivModUnique(41943 * (v + 1), 0x40_0000, q, 41943 * (v + 1) - q * 0x40_0000);
  }

  lemma ReciprocalOf10000(v: nat)
    requires v < 0x1_0000_0000
    ensures (3518437209 * v) / 0x2000_0000_0000 == v / 10000
  {
    var q, r := v / 10000, v % 10000;
    DivModUnique(3518437209 * v, 0x2000_0000_0000, q, 3518437209 * v - q * 0x2000_0000_0000);
  }

  lemma ReciprocalOf10Pow8(v: nat)
    requires v < 0x1_0000_0000_0000_0000
    ensures (12379400392853802749 * v) / 0x400_0000_0000_0000_0000_0000 == v / 100000000
  {
    var q, r := v / 100000000, v % 100000000;
    DivModUnique(12379400392853802749 * v, 0x400_0000_0000_0000_0000_0000, q,
                 12379400392853802749 * v - q * 0x400_0000_0000_0000_0000_0000);
  }

  lemma SmallRemainder(x: nat, m: nat)
    requires x < m
    ensures x % m == x
  {
  }

  lemma QuotientAtMost(v: nat, d: nat)
    requires d > 0
    ensures 0 <= v / d <= v && v - (v / d) * d == v % d
  {
    var q := v / d;
    assert v == q * d + v % d;
    MulLe(1, d, q);
  }

  /** Nothing is lost in the conversions between the types. */
  lemma SplitResult(v: nat, product: nat, scale: nat, d: nat, wide: nat, full: nat, half: nat)
    requires scale > 0 && 0 < d <= half <= full && v < full && product < wide && product / scale == v / d
    ensures (product % wide / scale) % full == v / d && ((v - (v / d) * d) % full) % half == v % d
  {
    SmallRemainder(product, wide);
    QuotientAtMost(v, d);
    SmallRemainder(v / d, full);
    SmallRemainder(v % d, full);
    SmallRemainder(v % d, half);
  }

  lemma Split2(v: nat)
    requires v < 0x1_0000
    ensures Split(2, v) == QuotientAndRemainder(v / 100, v % 100)
  {
    PowersOfTen();
    ReciprocalOf100(v);
    SplitResult(v, 41943 * (v + 1), 0x40_0000, 100, TypeSize(4), TypeSize(2), TypeSize(1));
  }

  lemma Split4(v: nat)
    requires v < 0x1_0000_0000
    ensures Split(4, v) == QuotientAndRemainder(v / 10000, v % 10000)
  {
    PowersOfTen();
    ReciprocalOf10000(v);
    SplitResult(v, 3518437209 * v, 0x2000_0000_0000, 10000, TypeSize(8), TypeSize(4), TypeSize(2));
  }

  lemma Split8(v: nat)
    requires v < 0x1_0000_0000_0000_0000
    ensures Split(8, v) == QuotientAndRemainder(v / 100000000, v % 100000000)
  {
    PowersOfTen();
    ReciprocalOf10Pow8(v);
    SplitResult(v, 12379400392853802749 * v, 0x400_0000_0000_0000_0000_0000, 100000000,
                TypeSize(16), TypeSize(8), TypeSize(4));
  }

  /** Multiplying with the reciprocal and shifting is true division by 10^N, for every value of the type. */
  lemma SplitIsDivision(n: nat, v: nat)
    requires IsSize(n) && 1 < n <= 8 && v < TypeSize(n)
    ensures Split(n, v).quotient == v / Pow10(n) && Split(n, v).remainder == v % Pow10(n)
  {
    SizeCases(n);
    PowersOfTen();
    if n == 2 { Split2(v); } else if n == 4 { Split4(v); } else { Split8(v); }
  }

  // ---------------------------------------------------------------- writing

  /** `text` has been written at p, and nothing else has changed. */
  ghost predicate Written(now: seq<char>, was: seq<char>, p: nat, text: string) {
    p + |text| <= |was| && now == was[..p] + text + was[p + |text|..]
  }

  lemma WrittenTwice(s2: seq<char>, s1: seq<char>, s0: seq<char>, p: nat, t1: string, t2: string)
    requires Written(s1, s0, p, t1) && Written(s2, s1, p + |t1|, t2)
    ensures Written(s2, s0, p, t1 + t2)
  {
  }

  method OutDigit(a: array<char>, p: nat, value: nat) returns (r: nat)
    requires p < a.Length && value < 10
    modifies a
    ensures r == p + 1 && Written(a[..], old(a[..]), p, [DigitChar(value)])
  {
    a[p] := DigitChar(value);
    r := p + 1;
  }

  /** Row k of the table of two-digit texts. */
  function DigitsRow(k: nat): (s: string)
    requires k < 10
    ensures |s| == 20
  {
    if k == 0 then "00010203040506070809" else if k == 1 then "10111213141516171819"
    else if k == 2 then "20212223242526272829" else if k == 3 then "30313233343536373839"
    else if k == 4 then "40414243444546474849" else if k == 5 then "50515253545556575859"
    else if k == 6 then "60616263646566676869" else if k == 7 then "70717273747576777879"
    else if k == 8 then "80818283848586878889" else "90919293949596979899"
  }

  ghost predicate RowHolds(s: string, k: nat, c: nat)
    requires |s| == 20 && k < 10 && c < 10
  {
    s[2 * c] == DigitChar(k) && s[2 * c + 1] == DigitChar(c)
  }

  lemma Rows0And1(c: nat)
    requires c < 10
    ensures RowHolds("00010203040506070809", 0, c) && RowHolds("10111213141516171819", 1, c)
  {
  }

  lemma Rows2And3(c: nat)
    requires c < 10
    ensures RowHolds("20212223242526272829", 2, c) && RowHolds("30313233343536373839", 3, c)
  {
  }

  lemma Rows4And5(c: nat)
    requires c < 10
    ensures RowHolds("40414243444546474849", 4, c) && RowHolds("50515253545556575859", 5, c)
  {
  }

  lemma Rows6And7(c: nat)
    requires c < 10
    ensures RowHolds("60616263646566676869", 6, c) && RowHolds("70717273747576777879", 7, c)
  {
  }

  lemma Rows8And9(c: nat)
    requires c < 10
    ensures RowHolds("80818283848586878889", 8, c) && RowHolds("90919293949596979899", 9, c)
  {
  }

  lemma RowContents(k: nat, c: nat)
    requires k < 10 && c < 10
    ensures RowHolds(DigitsRow(k), k, c)
  {
    if k < 2 { Rows0And1(c); } else if k < 4 { Rows2And3(c); } else if k < 6 { Rows4And5(c); }
    else if k < 8 { Rows6And7(c); } else { Rows8And9(c); }
  }

  /** The table holds the text of v at 2 * v. */
  lemma TableContents(v: nat)
    requires v < 100
    ensures [DigitsRow(v / 10)[2 * (v % 10)], DigitsRow(v / 10)[2 * (v % 10) + 1]] == Padded(v, 2)
  {
    RowContents(v / 10, v % 10);
    assert Padded(v, 2) == Padded(v / 10, 1) + [DigitChar(v % 10)];
    assert Padded(v / 10, 1) == [DigitChar(v / 10)];
  }

  method OutTwoDigits(a: array<char>, p: nat, value: nat) returns (r: nat)
    requires p + 2 <= a.Length && value < 100
    modifies a
    ensures r == p + 2 && Written(a[..], old(a[..]), p, Padded(value, 2))
  {
    TableContents(value);
    var row := DigitsRow(value / 10);
    a[p], a[p + 1] := row[2 * (value % 10)], row[2 * (value % 10) + 1];
    r := p + 2;
  }

  // ---------------------------------------------------------------- head and tail

  /** Numbers of at most 2N digits fit N bytes. */
  lemma DigitsFit(n: nat, u: nat)
    requires IsSize(n) && n <= 8 && u < Pow10(2 * n)
    ensures u < TypeSize(n) && Truncate(u, n) == u
  {
    SizeCases(n);
    PowersOfTen();
  }

  method Narrow(u: nat, n: nat) returns (r: nat)
    requires IsSize(n) && n <= 8 && u < Pow10(2 * n)
    ensures r == u
  {
    DigitsFit(n, u);
    r := Truncate(u, n);
  }

  /** Quotient and remainder by 10^N of a number that needs at most 2N digits. */
  method SplitDigits(n: nat, u: nat) returns (x: QuotientAndRemainder)
    requires IsSize(n) && 1 < n <= 8 && u < Pow10(2 * n)
    ensures u == x.quotient * Pow10(n) + x.remainder && x.quotient < Pow10(n) && x.remainder < Pow10(n)
  {
    DigitsFit(n, u);
    SplitIsDivision(n, u);
    Pow10Twice(n);
    QuotientBelow(u, Pow10(n));
    x := Split(n, u);
  }

  lemma Pow10Twice(n: nat)
    ensures Pow10(2 * n) == Pow10(n) * Pow10(n)
  {
    Pow10Add(n, n);
  }

  lemma {:induction false} Pow10Add(m: nat, n: nat)
    ensures Pow10(m + n) == Pow10(m) * Pow10(n)
  {
    if m > 0 {
      Pow10Add(m - 1, n);
      MulAssociative(10, Pow10(m - 1), Pow10(n));
    }
  }

  lemma QuotientBelow(u: nat, p: nat)
    requires p > 0 && u < p * p
    ensures 0 <= u / p < p && u == (u / p) * p + u % p
  {
    if u / p >= p { MulLe(p, u / p, p); }
  }

  lemma HalfSize(n: nat)
    requires IsSize(n) && n > 1
    ensures 2 * (n / 2) == n && IsSize(n / 2)
  {
  }

  lemma TailText(n: nat, u: nat, x: QuotientAndRemainder)
    requires u == x.quotient * Pow10(n) + x.remainder && x.remainder < Pow10(n)
    ensures Padded(x.quotient, n) + Padded(x.remainder, n) == Padded(u, 2 * n)
  {
    PaddedJoin(x.quotient, n, x.remainder, n);
  }

  /** All 2N digits, leading zeros included. */
  method Tail(a: array<char>, p: nat, n: nat, u: nat) returns (r: nat)
    requires IsSize(n) && n <= 8 && u < Pow10(2 * n) && p + 2 * n <= a.Length
    modifies a
    ensures r == p + 2 * n && Written(a[..], old(a[..]), p, Padded(u, 2 * n))
    decreases n
  {
    if n == 1 {
      PowersOfTen();
      r := OutTwoDigits(a, p, u);
    } else {
      HalfSize(n);
      var x := SplitDigits(n, u);
      var q := Narrow(x.quotient, n / 2);
      r := Tail(a, p, n / 2, q);
      ghost var mid := a[..];
      r := Tail(a, r, n / 2, x.remainder);
      WrittenTwice(a[..], mid, old(a[..]), p, Padded(x.quotient, n), Padded(x.remainder, n));
      TailText(n, u, x);
    }
  }

  lemma TwoDigitText(u: nat)
    requires u < 100
    ensures DecimalText(u) == if u < 10 then [DigitChar(u)] else Padded(u, 2)
  {
    if u >= 10 {
      assert Digits(u) == Digits(u / 10) + [DigitChar(u % 10)];
      assert Digits(u / 10) == Digits(0) + [DigitChar(u / 10)];
      assert Padded(u, 2) == Padded(u / 10, 1) + [DigitChar(u % 10)];
    } else if u > 0 {
      assert Digits(u) == Digits(0) + [DigitChar(u)];
    }
  }

  /** The quotient part of a number keeps the text canonical. */
  lemma TextJoin(q: nat, r: nat, w: nat)
    requires q > 0 && r < Pow10(w)
    ensures DecimalText(q) + Padded(r, w) == DecimalText(q * Pow10(w) + r) && q * Pow10(w) + r > 0
  {
    MulLe(1, Pow10(w), q);
    DigitsJoin(q, r, w);
  }

  /** The digits without leading zeros. */
  method Head(a: array<char>, p: nat, n: nat, u: nat) returns (r: nat)
    requires IsSize(n) && n <= 8 && u < Pow10(2 * n) && p + |DecimalText(u)| <= a.Length
    modifies a
    ensures r == p + |DecimalText(u)| && Written(a[..], old(a[..]), p, DecimalText(u))
    decreases n
  {
    if n == 1 {
      PowersOfTen();
      TwoDigitText(u);
      if u < 10 { r := OutDigit(a, p, u); } else { r := OutTwoDigits(a, p, u); }
    } else {
      HalfSize(n);
      if u < Pow10(n) {
        var v := Narrow(u, n / 2);
        r := Head(a, p, n / 2, v);
      } else {
        var x := SplitDigits(n, u);
        r := HeadAndTail(a, p, n, x.quotient, x.remainder, u);
      }
    }
  }

  /** The two parts of a number of more than N digits. */
  method HeadAndTail(a: array<char>, p: nat, n: nat, quotient: nat, remainder: nat, ghost u: nat) returns (r: nat)
    requires IsSize(n) && 1 < n <= 8 && quotient < Pow10(n) && remainder < Pow10(n)
    requires u == quotient * Pow10(n) + remainder >= Pow10(n) && p + |DecimalText(u)| <= a.Length
    modifies a
    ensures r == p + |DecimalText(u)| && Written(a[..], old(a[..]), p, DecimalText(u))
    decreases n, 0
  {
    HalfSize(n);
    if quotient == 0 { assert false; }
    TextJoin(quotient, remainder, n);
    var q := Narrow(quotient, n / 2);
    r := Head(a, p, n / 2, q);
    ghost var mid := a[..];
    r := Tail(a, r, n / 2, remainder);
    WrittenTwice(a[..], mid, old(a[..]), p, DecimalText(quotient), Padded(remainder, n));
  }

  // ---------------------------------------------------------------- whole types

  /** The two splits of a number of more than 2N digits. */
  method SplitLarge(n: nat, u: nat) returns (x: QuotientAndRemainder, y: QuotientAndRemainder)
    requires IsSize(n) && 1 < n <= 8 && Pow10(2 * n) <= u < TypeSize(n)
    ensures u == x.quotient * Pow10(n) + x.remainder && x.remainder < Pow10(n)
    ensures Pow10(n) <= x.quotient == y.quotient * Pow10(n) + y.remainder
    ensures y.quotient < Pow10(n) && y.remainder < Pow10(n)
  {
    SplitIsDivision(n, u);
    LargeQuotient(n, u);
    QuotientAtMost(u, Pow10(n));
    x := Split(n, u);
    SplitIsDivision(n, x.quotient);
    QuotientAtMost(x.quotient, Pow10(n));
    y := Split(n, x.quotient);
  }

  lemma LargeQuotient(n: nat, u: nat)
    requires IsSize(n) && 1 < n <= 8 && Pow10(2 * n) <= u < TypeSize(n)
    ensures Pow10(n) <= u / Pow10(n) && (u / Pow10(n)) / Pow10(n) < Pow10(n)
  {
    SizeCases(n);
    PowersOfTen();
  }

  /** Numbers of more than 2N digits. */
  method Large(a: array<char>, p: nat, n: nat, u: nat) returns (r: nat)
    requires IsSize(n) && 1 < n <= 8 && Pow10(2 * n) <= u < TypeSize(n) && p + |DecimalText(u)| <= a.Length
    modifies a
    ensures r == p + |DecimalText(u)| && Written(a[..], old(a[..]), p, DecimalText(u))
  {
    var x, y := SplitLarge(n, u);
    r := WriteParts(a, p, n, x, y, u);
  }

  method WriteParts(a: array<char>, p: nat, n: nat, x: QuotientAndRemainder, y: QuotientAndRemainder, ghost u: nat)
    returns (r: nat)
    requires IsSize(n) && 1 < n <= 8 && y.quotient < Pow10(n) && y.remainder < Pow10(n) && x.remainder < Pow10(n)
    requires Pow10(n) <= x.quotient == y.quotient * Pow10(n) + y.remainder
    requires u == x.quotient * Pow10(n) + x.remainder && p + |DecimalText(u)| <= a.Length
    modifies a
    ensures r == p + |DecimalText(u)| && Written(a[..], old(a[..]), p, DecimalText(u))
  {
    HalfSize(n);
    TextJoin(x.quotient, x.remainder, n);
    r := HeadAndTail(a, p, n, y.quotient, y.remainder, x.quotient);
    ghost var mid := a[..];
    r := Tail(a, r, n / 2, x.remainder);
    WrittenTwice(a[..], mid, old(a[..]), p, DecimalText(x.quotient), Padded(x.remainder, n));
  }

  /** Any unsigned integer of one to eight bytes. */
  method Uitoa(a: array<char>, p: nat, n: nat, u: nat) returns (r: nat)
    requires IsSize(n) && n <= 8 && u < TypeSize(n) && p + |DecimalText(u)| <= a.Length
    modifies a
    ensures r == p + |DecimalText(u)| && Written(a[..], old(a[..]), p, DecimalText(u))
  {
    if n == 1 {
      r := ByteText(a, p, u);
    } else if u < Pow10(n) {
      HalfSize(n);
      var v := Narrow(u, n / 2);
      r := Head(a, p, n / 2, v);
    } else if u < Pow10(2 * n) {
      var x := SplitDigits(n, u);
      r := HeadAndTail(a, p, n, x.quotient, x.remainder, u);
    } else {
      r := Large(a, p, n, u);
    }
  }

  method ByteText(a: array<char>, p: nat, u: nat) returns (r: nat)
    requires u < 256 && p + |DecimalText(u)| <= a.Length
    modifies a
    ensures r == p + |DecimalText(u)| && Written(a[..], old(a[..]), p, DecimalText(u))
  {
    if u < 100 {
      TwoDigitText(u);
      if u < 10 { r := OutDigit(a, p, u); } else { r := OutTwoDigits(a, p, u); }
    } else {
      PowersOfTen();
      TwoDigitText(u / 100);
      TextJoin(u / 100, u % 100, 2);
      r := OutDigit(a, p, u / 100);
      ghost var mid := a[..];
      r := OutTwoDigits(a, r, u % 100);
      WrittenTwice(a[..], mid, old(a[..]), p, DecimalText(u / 100), Padded(u % 100, 2));
    }
  }

  // ---------------------------------------------------------------- signed

  /** The magnitude computed without a branch: twice the number, masked away if negative, less the number. */
  function Magnitude(n: nat, i: int): nat {
    var mask := if i < 0 then TypeSize(n) - 1 else 0;
    var u := Truncate(i, n);
    Truncate(And(Truncate(2 * u, n), TypeSize(n) - 1 - mask) - u, n)
  }

  lemma MagnitudeIsAbs(n: nat, i: int)
    requires IsSize(n) && n <= 8
    requires 0 - TypeSize(n) <= 2 * i < TypeSize(n)
    ensures Magnitude(n, i) == (if i < 0 then -i else i) < TypeSize(n)
  {
    var m, u := TypeSize(n), Truncate(i, n);
    if i < 0 {
      DivModUnique(i, m, -1, i + m);
      assert And(Truncate(2 * u, n), 0) == 0;
      DivModUnique(-(u as int), m, -1, -i);
    } else {
      DivModUnique(i, m, 0, i);
      DivModUnique(2 * i, m, 0, 2 * i);
      AllOnes(n, 2 * i);
      DivModUnique(i, m, 0, i);
    }
  }

  lemma AllOnes(n: nat, x: nat)
    requires IsSize(n) && n <= 8 && x < TypeSize(n)
    ensures And(x, TypeSize(n) - 1) == x
  {
    TypeSizeIsPow2(n);
    AndMask(x, 8 * n);
    SmallRemainder(x, TypeSize(n));
  }

  lemma {:induction false} TypeSizeIsPow2(n: nat)
    requires IsSize(n) && n <= 8
    ensures TypeSize(n) == Pow2(8 * n)
  {
    if n == 1 {
      assert Pow2(8) == 0x100;
    } else {
      TypeSizeIsPow2(n / 2);
      Pow2Add(8 * (n / 2), 8 * (n / 2));
      TypeSquares(n);
    }
  }

  lemma TypeSquares(n: nat)
    requires IsSize(n) && 1 < n <= 8
    ensures TypeSize(n) == TypeSize(n / 2) * TypeSize(n / 2)
  {
    SizeCases(n);
  }

  /** Any signed integer of one to eight bytes. The minus sign is always stored, and kept only if it is wanted. */
  method Itoa(a: array<char>, p: nat, n: nat, i: int) returns (r: nat)
    requires IsSize(n) && n <= 8 && 0 - TypeSize(n) <= 2 * i < TypeSize(n)
    requires p + |SignedText(i)| <= a.Length
    modifies a
    ensures r == p + |SignedText(i)| && Written(a[..], old(a[..]), p, SignedText(i))
  {
    MagnitudeIsAbs(n, i);
    r := WriteSigned(a, p, n, i < 0, Magnitude(n, i));
  }

  method WriteSigned(a: array<char>, p: nat, n: nat, negative: bool, u: nat) returns (r: nat)
    requires IsSize(n) && n <= 8 && u < TypeSize(n)
    requires var text := (if negative then "-" else "") + DecimalText(u); p + |text| <= a.Length
    modifies a
    ensures var text := (if negative then "-" else "") + DecimalText(u);
            r == p + |text| && Written(a[..], old(a[..]), p, text)
  {
    ghost var text := DecimalText(u);
    DecimalRoundTrip(u);
    StoreMinus(a, p);
    ghost var mid := a[..];
    if negative {
      r := Uitoa(a, p + 1, n, u);
      WrittenTwice(a[..], mid, old(a[..]), p, "-", text);
    } else {
      r := Uitoa(a, p, n, u);
      Overwritten(a[..], mid, old(a[..]), p, text);
      assert "" + text == text;
    }
  }

  method StoreMinus(a: array<char>, p: nat)
    requires p < a.Length
    modifies a
    ensures Written(a[..], old(a[..]), p, "-")
  {
    a[p] := '-';
  }

  /** A longer text written at the same place leaves nothing of the first. */
  lemma Overwritten(s2: seq<char>, s1: seq<char>, s0: seq<char>, p: nat, text: string)
    requires Written(s1, s0, p, "-") && Written(s2, s1, p, text) && text != ""
    ensures Written(s2, s0, p, text)
  {
  }
}
