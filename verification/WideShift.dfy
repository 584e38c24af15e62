/** Shifts of limb sequences by any number of bits below the width. */
module WideShift {
  import opened Bits
  import opened WideLimbs

  // ---------------------------------------------------------------- one limb

  function ShlLimb(x: Limb, s: nat): Limb {
    (x * Pow2(s)) % BASE
  }

  function ShrLimb(x: Limb, s: nat): Limb {
    Shr(x, s)
  }

  /** The two halves of a limb moved up by s bits: what stays and what goes over. */
  lemma LimbShift(x: Limb, s: nat)
    requires s <= BASE_BITS
    ensures x * Pow2(s) == BASE * ShrLimb(x, BASE_BITS - s) + ShlLimb(x, s)
    ensures ShrLimb(x, BASE_BITS - s) < Pow2(s)
    ensures ShlLimb(x, s) == (x % Pow2(BASE_BITS - s)) * Pow2(s)
  {
    BaseIsPow2();
    Pow2Add(BASE_BITS - s, s);
    ShrIsDiv(x, BASE_BITS - s);
    LimbShiftAlgebra(x, Pow2(BASE_BITS - s), Pow2(s));
  }

  lemma LimbShiftAlgebra(x: Limb, q: nat, p: nat)
    requires q > 0 && p > 0 && q * p == BASE
    ensures x * p == BASE * (x / q) + (x * p) % BASE && x / q < p && (x * p) % BASE == (x % q) * p
  {
    var h, l := x / q, x % q;
    assert x == h * q + l;
    assert (h * q) * p == h * BASE by { MulAssociative(h, q, p); }
    assert x * p == (h * q) * p + l * p;
    MulLe(l + 1, q, p);
    DivModUnique(x * p, BASE, h, l * p);
    if h >= p { MulLe(p, h, q); }
  }

  lemma NothingOver(x: Limb)
    ensures ShrLimb(x, BASE_BITS) == 0 && ShlLimb(x, BASE_BITS) == 0
  {
    LimbShift(x, 0);
    LimbShift(x, BASE_BITS);
  }

  /** The parts of two neighbours meet in one limb without overlapping. */
  lemma MeetLeft(x: Limb, y: Limb, s: nat)
    requires s <= BASE_BITS
    ensures Or(ShlLimb(x, s), ShrLimb(y, BASE_BITS - s)) == ShlLimb(x, s) + ShrLimb(y, BASE_BITS - s) < BASE
  {
    LimbShift(x, s);
    LimbShift(y, s);
    var l := x % Pow2(BASE_BITS - s);
    OrDisjoint(l, ShrLimb(y, BASE_BITS - s), s);
    assert Pow2(BASE_BITS - s) * Pow2(s) == BASE by { BaseIsPow2(); Pow2Add(BASE_BITS - s, s); }
    MeetBound(l, Pow2(BASE_BITS - s), Pow2(s), ShrLimb(y, BASE_BITS - s));
  }

  lemma MeetBound(l: nat, q: nat, p: nat, h: nat)
    requires l < q && h < p && q * p == BASE
    ensures l * p + h < BASE
  {
    MulLe(l + 1, q, p);
  }

  // ---------------------------------------------------------------- to the left

  /** What limb j of the part above the zero limbs becomes. */
  ghost function Moved(rhs: seq<Limb>, j: nat, s: nat): nat
    requires j < |rhs| && s <= BASE_BITS
  {
    ShlLimb(rhs[j], s) + Incoming(rhs, j, s)
  }

  ghost function Incoming(rhs: seq<Limb>, j: nat, s: nat): nat
    requires j <= |rhs| && s <= BASE_BITS
  {
    if j == 0 then 0 else ShrLimb(rhs[j - 1], BASE_BITS - s)
  }

  ghost predicate ShiftedLeft(res: seq<Limb>, rhs: seq<Limb>, items: nat, s: nat)
    requires |res| == |rhs| && items <= |rhs| && s <= BASE_BITS
  {
    && (forall k :: 0 <= k < items ==> res[k] == 0)
    && (forall k :: items <= k < |rhs| ==> res[k] == Moved(rhs, k - items, s))
  }

  method ShiftLeft(rhs: seq<Limb>, n: nat) returns (lhs: seq<Limb>)
    requires n < BASE_BITS * |rhs|
    ensures |lhs| == |rhs| && Value(lhs) == (Value(rhs) * Pow2(n)) % Modulus(|rhs|)
  {
    var count, itemsShift, bitShift := |rhs|, n / BASE_BITS, n % BASE_BITS;
    if bitShift != 0 {
      lhs := MoveBitsLeft(rhs, itemsShift, bitShift);
    } else {
      lhs := Zeros(count);
      for i := 0 to count - itemsShift
        invariant |lhs| == count
        invariant forall k :: count - i <= k < count ==> lhs[k] == rhs[k - itemsShift]
      {
        lhs := lhs[count - 1 - i := rhs[count - 1 - (itemsShift + i)]];
      }
      forall k | itemsShift <= k < count ensures lhs[k] == Moved(rhs, k - itemsShift, 0) {
        UnmovedLimb(rhs, k - itemsShift);
      }
    }
    for i := 0 to itemsShift
      invariant |lhs| == count
      invariant forall k :: 0 <= k < i ==> lhs[k] == 0
      invariant forall k :: itemsShift <= k < count ==> lhs[k] == Moved(rhs, k - itemsShift, bitShift)
    {
      lhs := lhs[i := 0];
    }
    ShiftedLeftValue(lhs, rhs, itemsShift, bitShift);
  }

  lemma UnmovedLimb(rhs: seq<Limb>, j: nat)
    requires j < |rhs|
    ensures Moved(rhs, j, 0) == rhs[j]
  {
    assert ShlLimb(rhs[j], 0) == rhs[j];
    if j > 0 { NothingOver(rhs[j - 1]); }
  }

  method MoveBitsLeft(rhs: seq<Limb>, itemsShift: nat, bitShift: nat) returns (lhs: seq<Limb>)
    requires itemsShift < |rhs| && 0 < bitShift < BASE_BITS
    ensures |lhs| == |rhs|
    ensures forall k :: itemsShift <= k < |rhs| ==> lhs[k] == Moved(rhs, k - itemsShift, bitShift)
  {
    var count, overflowShift := |rhs|, BASE_BITS - bitShift;
    lhs := Zeros(count);
    lhs := lhs[count - 1 := ShlLimb(rhs[count - 1 - itemsShift], bitShift)];
    for i := 1 to count - itemsShift
      invariant |lhs| == count
      invariant lhs[count - i] == ShlLimb(rhs[count - i - itemsShift], bitShift)
      invariant forall k :: count - i < k < count ==> lhs[k] == Moved(rhs, k - itemsShift, bitShift)
    {
      var next := rhs[count - 1 - (itemsShift + i)];
      MeetLeft(rhs[count - i - itemsShift], next, bitShift);
      lhs := lhs[count - i := Or(lhs[count - i], ShrLimb(next, overflowShift))];
      lhs := lhs[count - 1 - i := ShlLimb(next, bitShift)];
    }
  }

  /** Limbs placed above `items` zero limbs count Modulus(items) times. */
  lemma RaisedValue(s: seq<Limb>, items: nat)
    requires items <= |s| && forall k :: 0 <= k < items ==> s[k] == 0
    ensures Value(s) == Modulus(items) * Range(s, items, |s|)
  {
    RangeSplit(s, 0, items, |s|);
    RangeZero(s, 0, items);
  }

  lemma ShiftedLeftValue(lhs: seq<Limb>, rhs: seq<Limb>, items: nat, s: nat)
    requires |lhs| == |rhs| && items < |rhs| && s < BASE_BITS && ShiftedLeft(lhs, rhs, items, s)
    ensures Value(lhs) == (Value(rhs) * Pow2(BASE_BITS * items + s)) % Modulus(|rhs|)
  {
    var count, m := |rhs|, |rhs| - items;
    var top := MovedChain(lhs, rhs, items, s);
    RaisedValue(lhs, items);
    RangeSplit(rhs, 0, m, count);
    ModulusAdd(items, m);
    assert Pow2(BASE_BITS * items + s) == Modulus(items) * Pow2(s) by {
      ModulusIsPow2(items);
      Pow2Add(BASE_BITS * items, s);
    }
    LeftAlgebra(Range(lhs, items, count), top, Range(rhs, 0, m), Range(rhs, m, count), Modulus(items), Modulus(m), Pow2(s));
    ValueBound(lhs);
    DivModUnique(Value(rhs) * Pow2(BASE_BITS * items + s), Modulus(count), top + Range(rhs, m, count) * Pow2(s),
                 Value(lhs));
  }

  lemma MovedChain(lhs: seq<Limb>, rhs: seq<Limb>, items: nat, s: nat) returns (top: nat)
    requires |lhs| == |rhs| && items < |rhs| && s < BASE_BITS && ShiftedLeft(lhs, rhs, items, s)
    ensures var m := |rhs| - items;
            Range(lhs, items, |lhs|) + top * Modulus(m) == Range(rhs, 0, m) * Pow2(s)
  {
    var m := |rhs| - items;
    var r, u := lhs[items..], rhs[..m];
    var c := seq(m + 1, j requires 0 <= j <= m => Incoming(rhs, j, s));
    forall i | 0 <= i < m ensures r[i] + BASE * c[i + 1] == u[i] * Pow2(s) + Zeros(m)[i] + c[i] {
      LimbShift(rhs[i], s);
    }
    ScaleChain(r, u, Pow2(s), c);
    LowPart(rhs, m);
    HighPart(lhs, items);
    top := c[m];
  }

  lemma LeftAlgebra(r: int, top: int, u: int, w: int, a: int, m: int, p: int)
    requires r + top * m == u * p
    ensures (u + m * w) * (a * p) == (top + w * p) * (a * m) + a * r
  {
    assert a * (r + top * m) == a * (u * p);
  }

  // ---------------------------------------------------------------- to the right

  ghost function Fill(rhs: seq<Limb>, signed: bool): Limb {
    if IsNegative(rhs, signed) then BASE - 1 else 0
  }

  /** Limb k of e moved down by s bits, with the low bits of the limb above it. */
  ghost function Drawn(e: seq<Limb>, k: nat, s: nat): nat
    requires k + 1 < |e| && s < BASE_BITS
  {
    ShrLimb(e[k], s) + ShlLimb(e[k + 1], BASE_BITS - s)
  }

  lemma MeetRight(x: Limb, y: Limb, s: nat)
    requires s < BASE_BITS
    ensures Or(ShrLimb(x, s), ShlLimb(y, BASE_BITS - s)) == ShrLimb(x, s) + ShlLimb(y, BASE_BITS - s) < BASE
  {
    MeetLeft(y, x, BASE_BITS - s);
    OrCommutes(ShrLimb(x, s), ShlLimb(y, BASE_BITS - s));
  }

  lemma {:induction false} OrCommutes(x: nat, y: nat)
    ensures Or(x, y) == Or(y, x)
  {
    if x != 0 || y != 0 { OrCommutes(x / 2, y / 2); }
  }

  method MoveBitsRight(rhs: seq<Limb>, itemsShift: nat, bitShift: nat) returns (lhs: seq<Limb>)
    requires itemsShift < |rhs| && 0 < bitShift < BASE_BITS
    ensures |lhs| == |rhs|
    ensures forall k :: 0 <= k < |rhs| - itemsShift ==> lhs[k] == Drawn(rhs + [0], k + itemsShift, bitShift)
  {
    var count, overflowShift := |rhs|, BASE_BITS - bitShift;
    ghost var e := rhs + [0];
    lhs := Zeros(count);
    lhs := lhs[0 := ShrLimb(rhs[itemsShift], bitShift)];
    for i := 1 to count - itemsShift
      invariant |lhs| == count
      invariant lhs[i - 1] == ShrLimb(rhs[itemsShift + i - 1], bitShift)
      invariant forall k :: 0 <= k < i - 1 ==> lhs[k] == Drawn(e, k + itemsShift, bitShift)
    {
      var next := rhs[itemsShift + i];
      MeetRight(rhs[itemsShift + i - 1], next, bitShift);
      lhs := lhs[i - 1 := Or(lhs[i - 1], ShlLimb(next, overflowShift))];
      lhs := lhs[i := ShrLimb(next, bitShift)];
    }
    LimbShift(0, overflowShift);
  }

  ghost predicate ShiftedRight(lhs: seq<Limb>, rhs: seq<Limb>, signed: bool, items: nat, s: nat)
    requires |lhs| == |rhs| && items < |rhs| && s < BASE_BITS
  {
    var m, fill := |rhs| - items, Fill(rhs, signed);
    && (forall k :: 0 <= k < m ==> lhs[k] == Drawn(rhs + [fill], k + items, s))
    && (forall k :: m <= k < |rhs| ==> lhs[k] == fill)
  }

  method MoveRight(rhs: seq<Limb>, itemsShift: nat, bitShift: nat) returns (lhs: seq<Limb>)
    requires itemsShift < |rhs| && bitShift < BASE_BITS
    ensures |lhs| == |rhs|
    ensures forall k :: 0 <= k < |rhs| - itemsShift ==> lhs[k] == Drawn(rhs + [0], k + itemsShift, bitShift)
  {
    if bitShift != 0 {
      lhs := MoveBitsRight(rhs, itemsShift, bitShift);
    } else {
      lhs := Zeros(|rhs|);
      for i := 0 to |rhs| - itemsShift
        invariant |lhs| == |rhs| && forall k :: 0 <= k < i ==> lhs[k] == rhs[k + itemsShift]
      {
        lhs := lhs[i := rhs[itemsShift + i]];
      }
      forall k | 0 <= k < |rhs| - itemsShift ensures lhs[k] == Drawn(rhs + [0], k + itemsShift, 0) {
        NothingOver((rhs + [0])[k + itemsShift + 1]);
      }
    }
  }

  /** The bits that come in from above repeat the sign. */
  method FillTop(moved: seq<Limb>, rhs: seq<Limb>, itemsShift: nat, bitShift: nat, signed: bool)
    returns (lhs: seq<Limb>)
    requires |moved| == |rhs| && itemsShift < |rhs| && bitShift < BASE_BITS
    requires forall k :: 0 <= k < |rhs| - itemsShift ==> moved[k] == Drawn(rhs + [0], k + itemsShift, bitShift)
    ensures |lhs| == |rhs| && ShiftedRight(lhs, rhs, signed, itemsShift, bitShift)
  {
    var count, fill := |rhs|, 0;
    lhs := moved;
    if IsNegative(rhs, signed) {
      fill := BASE - 1;
      FillLimb(rhs[count - 1], bitShift);
      if bitShift != 0 {
        lhs := lhs[count - 1 - itemsShift := Or(lhs[count - 1 - itemsShift], ShlLimb(BASE - 1, BASE_BITS - bitShift))];
      }
    }
    for i := 0 to itemsShift
      invariant |lhs| == count && forall k :: count - i <= k < count ==> lhs[k] == fill
      invariant forall k :: 0 <= k < count - itemsShift ==> lhs[k] == Drawn(rhs + [fill], k + itemsShift, bitShift)
    {
      lhs := lhs[count - 1 - i := fill];
    }
  }

  lemma FillLimb(x: Limb, s: nat)
    requires s < BASE_BITS
    ensures ShlLimb(0, BASE_BITS - s) == 0
    ensures s == 0 ==> ShlLimb(BASE - 1, BASE_BITS - s) == 0
    ensures Or(ShrLimb(x, s), ShlLimb(BASE - 1, BASE_BITS - s))
            == ShrLimb(x, s) + ShlLimb(BASE - 1, BASE_BITS - s) < BASE
  {
    MeetRight(x, BASE - 1, s);
    if s == 0 { NothingOver(BASE - 1); }
  }

  /** Arithmetic for negative numbers: the result is the quotient rounded down. */
  method ShiftRight(rhs: seq<Limb>, n: nat, signed: bool) returns (lhs: seq<Limb>)
    requires n < BASE_BITS * |rhs|
    ensures |lhs| == |rhs| && Signed(lhs, signed) == Signed(rhs, signed) / Pow2(n)
  {
    var itemsShift, bitShift := n / BASE_BITS, n % BASE_BITS;
    lhs := MoveRight(rhs, itemsShift, bitShift);
    lhs := FillTop(lhs, rhs, itemsShift, bitShift, signed);
    ShiftedRightValue(lhs, rhs, signed, itemsShift, bitShift);
  }

  /** The bits that leave each limb and go over to the limb below it. */
  ghost function Leaving(e: seq<Limb>, items: nat, s: nat): (c: seq<nat>)
    requires items <= |e|
    ensures |c| == |e| - items && forall j :: 0 <= j < |c| ==> c[j] == Cut(e[items + j], s)
  {
    seq<nat>(|e| - items, j requires 0 <= j < |e| - items => Cut(e[items + j], s))
  }

  lemma DrawnIsChained(y: seq<Limb>, rhs: seq<Limb>, fill: Limb, items: nat, s: nat)
    requires items < |rhs| && s < BASE_BITS && |y| == |rhs| - items
    requires forall k :: 0 <= k < |y| ==> y[k] == Drawn(rhs + [fill], k + items, s)
    ensures Chained(rhs[items..], y, Pow2(s), Zeros(|y|), Leaving(rhs + [fill], items, s))
  {
    var x, c := rhs[items..], Leaving(rhs + [fill], items, s);
    forall i {:trigger x[i]} | 0 <= i < |x| ensures x[i] + BASE * c[i + 1] == y[i] * Pow2(s) + Zeros(|y|)[i] + c[i] {
      DrawnAt(y, rhs, fill, items, s, i);
    }
  }

  lemma DrawnAt(y: seq<Limb>, rhs: seq<Limb>, fill: Limb, items: nat, s: nat, i: nat)
    requires items < |rhs| && s < BASE_BITS && |y| == |rhs| - items && i < |y|
    requires y[i] == Drawn(rhs + [fill], i + items, s)
    ensures var c := Leaving(rhs + [fill], items, s);
            rhs[items + i] + BASE * c[i + 1] == y[i] * Pow2(s) + c[i]
  {
    var e := rhs + [fill];
    DrawnLimb(e[items + i], e[items + i + 1], s);
  }

  lemma ScaleParts(lhs: seq<Limb>, rhs: seq<Limb>, items: nat, p: nat, c: seq<nat>)
    requires |lhs| == |rhs| && items <= |rhs| && |c| == |rhs| - items + 1
    requires Chained(rhs[items..], lhs[..|rhs| - items], p, Zeros(|rhs| - items), c)
    ensures var m := |rhs| - items; Range(rhs, items, |rhs|) + c[m] * Modulus(m) == Range(lhs, 0, m) * p + c[0]
  {
    ScaleChain(rhs[items..], lhs[..|rhs| - items], p, c);
    LowPart(lhs, |rhs| - items);
    HighPart(rhs, items);
  }

  lemma DrawnSum(lhs: seq<Limb>, rhs: seq<Limb>, signed: bool, items: nat, s: nat)
    requires |lhs| == |rhs| && items < |rhs| && s < BASE_BITS && ShiftedRight(lhs, rhs, signed, items, s)
    ensures var m := |rhs| - items;
            Range(rhs, items, |rhs|) + Cut(Fill(rhs, signed), s) * Modulus(m)
            == Range(lhs, 0, m) * Pow2(s) + Cut(rhs[items], s)
  {
    var m, fill := |rhs| - items, Fill(rhs, signed);
    var leaving := Leaving(rhs + [fill], items, s);
    DrawnIsChained(lhs[..m], rhs, fill, items, s);
    ScaleParts(lhs, rhs, items, Pow2(s), leaving);
    assert leaving[m] == Cut(fill, s) && leaving[0] == Cut(rhs[items], s);
  }

  lemma DrawnChain(lhs: seq<Limb>, rhs: seq<Limb>, signed: bool, items: nat, s: nat) returns (c: nat, top: nat)
    requires |lhs| == |rhs| && items < |rhs| && s < BASE_BITS && ShiftedRight(lhs, rhs, signed, items, s)
    ensures c < Pow2(s) && top == if IsNegative(rhs, signed) then Pow2(s) - 1 else 0
    ensures var m := |rhs| - items;
            Range(rhs, items, |rhs|) + top * Modulus(m) == Range(lhs, 0, m) * Pow2(s) + c
  {
    c, top := Cut(rhs[items], s), Cut(Fill(rhs, signed), s);
    DrawnSum(lhs, rhs, signed, items, s);
    FillBits(rhs, signed, s);
    CutIsMod(rhs[items], s);
  }

  lemma FillBits(rhs: seq<Limb>, signed: bool, s: nat)
    requires s < BASE_BITS
    ensures Cut(Fill(rhs, signed), s) == if IsNegative(rhs, signed) then Pow2(s) - 1 else 0
  {
    if IsNegative(rhs, signed) { FillCut(s); } else { CutIsMod(0, s); }
  }

  lemma DrawnLimb(x: Limb, above: Limb, s: nat)
    requires s < BASE_BITS
    ensures x + BASE * Cut(above, s)
            == (ShrLimb(x, s) + ShlLimb(above, BASE_BITS - s)) * Pow2(s) + Cut(x, s)
  {
    CutIsMod(x, s);
    CutIsMod(above, s);
    LimbShift(above, BASE_BITS - s);
    ShrIsDiv(x, s);
    var p, q := Pow2(s), Pow2(BASE_BITS - s);
    assert q * p == BASE by { BaseIsPow2(); Pow2Add(BASE_BITS - s, s); }
    DrawnAlgebra(x, above % p, p, q);
  }

  lemma DrawnAlgebra(x: nat, l: nat, p: nat, q: nat)
    requires p > 0 && q * p == BASE
    ensures x + BASE * l == (x / p + l * q) * p + x % p
  {
    assert x == (x / p) * p + x % p;
    assert (x / p + l * q) * p == (x / p) * p + (l * q) * p;
    MulAssociative(l, q, p);
  }

  /** Dividing first by a and then by p, keeping both remainders. */
  lemma RightAlgebra(v: int, l: nat, a: nat, x: int, y: int, p: nat, c: nat)
    requires v == l + a * x && x == y * p + c && l < a && c < p
    ensures a * p > 0 && v / (a * p) == y
  {
    MulLe(c + 1, p, a);
    assert a * (c + 1) == a * c + a;
    assert a * (y * p + c) == y * (a * p) + a * c;
    DivModUnique(v, a * p, y, l + a * c);
  }

  /** The incoming ones of a negative number: 2^s - 1 in the s bits that move. */
  lemma FillCut(s: nat)
    requires s < BASE_BITS
    ensures Cut(BASE - 1, s) == Pow2(s) - 1
  {
    assert Pow2(BASE_BITS - s) * Pow2(s) == BASE by { BaseIsPow2(); Pow2Add(BASE_BITS - s, s); }
    OnesRemainder(BASE, Pow2(s), Pow2(BASE_BITS - s));
    CutIsMod(BASE - 1, s);
  }

  lemma OnesRemainder(b: nat, p: nat, q: nat)
    requires p > 0 && q * p == b
    ensures (b - 1) % p == p - 1
  {
    assert (q - 1) * p == b - p;
    DivModUnique(b - 1, p, q - 1, p - 1);
  }

  /** The number the shifted limbs hold, less the modulus for a negative number, is the quotient. */
  lemma ShiftedRightRange(lhs: seq<Limb>, rhs: seq<Limb>, signed: bool, items: nat, s: nat)
    requires |lhs| == |rhs| && items < |rhs| && s < BASE_BITS && ShiftedRight(lhs, rhs, signed, items, s)
    ensures var m := |rhs| - items;
            Signed(rhs, signed) / (Modulus(items) * Pow2(s))
            == Range(lhs, 0, m) - if IsNegative(rhs, signed) then Modulus(m) else 0
  {
    var n, m := |rhs|, |rhs| - items;
    var c, top := DrawnChain(lhs, rhs, signed, items, s);
    RangeSplit(rhs, 0, items, n);
    RangeBound(rhs, 0, items);
    ModulusAdd(items, m);
    var low, x, y := Range(rhs, 0, items), Range(rhs, items, n), Range(lhs, 0, m);
    if IsNegative(rhs, signed) {
      NegativeQuotient(x, y, Modulus(m), Pow2(s), c, Modulus(items), low, Value(rhs));
    } else {
      RightAlgebra(Value(rhs), low, Modulus(items), x, y, Pow2(s), c);
    }
  }

  lemma NegativeQuotient(x: int, y: int, m: int, p: nat, c: nat, a: nat, l: nat, v: int)
    requires x + (p - 1) * m == y * p + c && v == l + a * x && l < a && c < p
    ensures a * p > 0 && (v - a * m) / (a * p) == y - m
  {
    assert (p - 1) * m == p * m - m && (y - m) * p == y * p - p * m && a * (x - m) == a * x - a * m;
    RightAlgebra(v - a * m, l, a, x - m, y - m, p, c);
  }

  lemma ShiftedRightValue(lhs: seq<Limb>, rhs: seq<Limb>, signed: bool, items: nat, s: nat)
    requires |lhs| == |rhs| && items < |rhs| && s < BASE_BITS && ShiftedRight(lhs, rhs, signed, items, s)
    ensures Signed(lhs, signed) == Signed(rhs, signed) / Pow2(BASE_BITS * items + s)
  {
    var d := Pow2(BASE_BITS * items + s);
    assert d == Modulus(items) * Pow2(s) by {
      ModulusIsPow2(items);
      Pow2Add(BASE_BITS * items, s);
    }
    ShiftedRightRange(lhs, rhs, signed, items, s);
    FilledValue(lhs, rhs, signed, items, s);
    SignedQuotient(lhs, rhs, signed, d);
  }

  lemma FilledValue(lhs: seq<Limb>, rhs: seq<Limb>, signed: bool, items: nat, s: nat)
    requires |lhs| == |rhs| && items < |rhs| && s < BASE_BITS && ShiftedRight(lhs, rhs, signed, items, s)
    ensures var n, m := |rhs|, |rhs| - items;
            Value(lhs) == Range(lhs, 0, m) + if IsNegative(rhs, signed) then Modulus(n) - Modulus(m) else 0
  {
    var n, m := |rhs|, |rhs| - items;
    RangeSplit(lhs, 0, m, n);
    ModulusAdd(m, items);
    if IsNegative(rhs, signed) {
      RangeOnes(lhs, m, n);
      assert Modulus(m) * (Modulus(items) - 1) == Modulus(m) * Modulus(items) - Modulus(m);
    } else {
      RangeZero(lhs, m, n);
    }
  }

  lemma SignedQuotient(lhs: seq<Limb>, rhs: seq<Limb>, signed: bool, d: nat)
    requires |lhs| == |rhs| > 0 && d > 0
    requires Value(lhs) == Signed(rhs, signed) / d + if IsNegative(rhs, signed) then Modulus(|rhs|) else 0
    ensures Signed(lhs, signed) == Signed(rhs, signed) / d
  {
    if signed {
      var q := Signed(rhs, signed) / d;
      SignedBound(rhs);
      QuotientBound(Signed(rhs, signed), d);
      ValueBound(lhs);
      DivModUnique(q, Modulus(|rhs|), if IsNegative(rhs, signed) then -1 else 0, Value(lhs));
      SignedUnique(lhs, q);
    }
  }

  lemma QuotientBound(v: int, d: nat)
    requires d > 0
    ensures v < 0 ==> v <= v / d < 0
    ensures v >= 0 ==> 0 <= v / d <= v
  {
    QuotientSign(v, d, v / d, v % d);
  }

  lemma QuotientSign(v: int, d: nat, q: int, r: nat)
    requires v == q * d + r && r < d
    ensures v < 0 ==> v <= q < 0
    ensures v >= 0 ==> 0 <= q <= v
  {
    if q < 0 {
      MulLe(1, d, -(q + 1));
      assert (q + 1) * d == q * d + d;
    } else {
      MulLe(1, d, q);
    }
  }

  // ---------------------------------------------------------------- the operators

  /** The shift count read as an unsigned word is at least the width; every negative count is. */
  predicate Excessive(n: int, count: nat) {
    n < 0 || n >= BASE_BITS * count
  }

  function MinusOne(count: nat): seq<Limb> {
    seq(count, i => BASE - 1)
  }

  lemma ConstantValues(count: nat)
    requires count > 0
    ensures Signed(Zeros(count), true) == Signed(Zeros(count), false) == Value(Zeros(count)) == 0
    ensures Signed(MinusOne(count), true) == -1
  {
    RangeZero(Zeros(count), 0, count);
    RangeOnes(MinusOne(count), 0, count);
  }

  /** What a count of at least the width leaves. */
  lemma NothingLeft(s: seq<Limb>, signed: bool, n: nat)
    requires s != [] && n >= BASE_BITS * |s|
    ensures (Value(s) * Pow2(n)) % Modulus(|s|) == 0
    ensures Signed(s, signed) / Pow2(n) == if Signed(s, signed) < 0 then -1 else 0
  {
    ModulusIsPow2(|s|);
    Pow2Monotone(BASE_BITS * |s|, n);
    Pow2Add(n - BASE_BITS * |s|, BASE_BITS * |s|);
    AllShiftedOut(Value(s), Pow2(n - BASE_BITS * |s|), Modulus(|s|));
    SignedBound(s);
    ValueBound(s);
    SmallQuotient(Signed(s, signed), Pow2(n));
  }

  lemma AllShiftedOut(v: nat, p: nat, m: nat)
    requires m > 0
    ensures (v * (p * m)) % m == 0
  {
    MulAssociative(v, p, m);
    DivModUnique(v * (p * m), m, v * p, 0);
  }

  lemma SmallQuotient(v: int, d: nat)
    requires 0 - d < v < d
    ensures v / d == if v < 0 then -1 else 0
  {
    if v < 0 { DivModUnique(v, d, -1, v + d); } else { DivModUnique(v, d, 0, v); }
  }

  /** lhs << n: for every count of at least zero the product with 2^n. */
  method LeftOperator(lhs: seq<Limb>, n: int) returns (res: seq<Limb>)
    requires lhs != []
    ensures |res| == |lhs|
    ensures n >= 0 ==> Value(res) == (Value(lhs) * Pow2(n)) % Modulus(|lhs|)
    ensures n < 0 ==> Value(res) == 0
  {
    ConstantValues(|lhs|);
    if Excessive(n, |lhs|) {
      if n >= 0 { NothingLeft(lhs, false, n); }
      return Zeros(|lhs|);
    }
    if n <= 0 {
      ValueBound(lhs);
      DivModUnique(Value(lhs), Modulus(|lhs|), 0, Value(lhs));
      return lhs;
    }
    res := ShiftLeft(lhs, n);
  }

  /** lhs >>= n: for every count of at least zero the quotient rounded down. */
  method RightAssign(lhs: seq<Limb>, n: int, signed: bool) returns (res: seq<Limb>)
    requires lhs != []
    ensures |res| == |lhs|
    ensures n >= 0 ==> Signed(res, signed) == Signed(lhs, signed) / Pow2(n)
    ensures n < 0 ==> Signed(res, signed) == if Signed(lhs, signed) < 0 then -1 else 0
  {
    ConstantValues(|lhs|);
    ValueBound(lhs);
    if Excessive(n, |lhs|) {
      if n >= 0 { NothingLeft(lhs, signed, n); }
      return if IsNegative(lhs, signed) then MinusOne(|lhs|) else Zeros(|lhs|);
    }
    if n <= 0 { return lhs; }
    res := ShiftRight(lhs, n, signed);
  }

  /** lhs >> n: the quotient rounded down if and only if the count is below the width or lhs is not negative; negative
      numbers shifted further give 0 where the assigning operator gives -1. */
  method RightOperator(lhs: seq<Limb>, n: int, signed: bool) returns (res: seq<Limb>)
    requires lhs != []
    ensures |res| == |lhs|
    ensures n >= 0 ==> (Signed(res, signed) == Signed(lhs, signed) / Pow2(n)
                        <==> n < BASE_BITS * |lhs| || Signed(lhs, signed) >= 0)
    ensures Excessive(n, |lhs|) ==> Signed(res, signed) == 0
  {
    ConstantValues(|lhs|);
    if Excessive(n, |lhs|) {
      if n >= 0 { NothingLeft(lhs, signed, n); }
      return Zeros(|lhs|);
    }
    if n <= 0 { return lhs; }
    res := ShiftRight(lhs, n, signed);
  }
}
