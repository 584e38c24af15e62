/** The RXS-M-XS output permutation and its inverse, and the inversion of xorshift it rests on. */
module PcgOutput {
  import opened Bits

  function Xorshift(x: nat, shift: nat): nat {
    Xor(x, Shr(x, shift))
  }

  /** unxorshift on the low `bits` bits of a word of `width` bits. */
  function Unxorshift(x: nat, bits: nat, shift: nat, width: nat): nat
    requires 0 < shift && bits <= width
    decreases bits
  {
    if 2 * shift >= bits then Xorshift(x, shift)
    else
      Pow2Monotone(bits - 2 * shift, width);
      var lowmask1 := Pow2(bits - 2 * shift) - 1;
      var highmask1 := Not(lowmask1, width);
      var top1 := And(Xorshift(x, shift), highmask1);
      var bottom1 := And(x, lowmask1);
      var x1 := Or(top1, bottom1);
      var lowmask2 := Pow2(bits - shift) - 1;
      var bottom2 := And(x1, lowmask2);
      Or(top1, And(Unxorshift(bottom2, bits - shift, shift, width), lowmask1))
  }

  lemma BitXorshift(x: nat, shift: nat, i: nat)
    ensures Bit(Xorshift(x, shift), i) == (Bit(x, i) != Bit(x, shift + i))
  {
    BitXor(x, Shr(x, shift), i);
    BitShr(x, shift, i);
  }

  lemma XorshiftBound(x: nat, shift: nat, bits: nat)
    requires x < Pow2(bits)
    ensures Xorshift(x, shift) < Pow2(bits)
  {
    BitwiseBound(x, Shr(x, shift), bits);
  }

  /** Bits of the word whose recovery is left to the recursive call: the top of x, then the bottom of its xorshift. */
  lemma BitTop(y: nat, bits: nat, shift: nat, width: nat, i: nat)
    requires 2 * shift < bits <= width && y < Pow2(width)
    ensures var lowmask1 := Pow2(bits - 2 * shift) - 1;
            lowmask1 < Pow2(width) &&
            Bit(And(Xorshift(y, shift), Not(lowmask1, width)), i) == (bits - 2 * shift <= i && Bit(Xorshift(y, shift), i))
  {
    Pow2Monotone(bits - 2 * shift, width);
    var lowmask1 := Pow2(bits - 2 * shift) - 1;
    BitAnd(Xorshift(y, shift), Not(lowmask1, width), i);
    BitNot(lowmask1, width, i);
    BitMask(bits - 2 * shift, i);
    if i >= width {
      XorshiftBound(y, shift, width);
      BitsBelow(Xorshift(y, shift), width, i);
    }
  }

  /** Two xorshifts by s are one by 2s. */
  lemma TwiceXorshift(x: nat, shift: nat, i: nat)
    ensures Bit(Xorshift(Xorshift(x, shift), shift), i) == (Bit(x, i) != Bit(x, shift + (shift + i)))
  {
    BitXorshift(Xorshift(x, shift), shift, i);
    BitXorshift(x, shift, i);
    BitXorshift(x, shift, shift + i);
  }

  /** unxorshift undoes x ^ (x >> shift), for every width and every positive shift. */
  lemma {:induction false} UnxorshiftInverts(x: nat, bits: nat, shift: nat, width: nat)
    requires 0 < shift && bits <= width && x < Pow2(bits)
    ensures Unxorshift(Xorshift(x, shift), bits, shift, width) == x
    decreases bits
  {
    var y := Xorshift(x, shift);
    if 2 * shift >= bits {
      forall i: nat ensures Bit(Xorshift(y, shift), i) == Bit(x, i) {
        TwiceXorshift(x, shift, i);
        BitsBelow(x, bits, shift + (shift + i));
      }
      SameBits(Xorshift(y, shift), x);
    } else {
      UnxorshiftStep(x, bits, shift, width);
      var z := And(x, Pow2(bits - shift) - 1);
      AndAtMost(x, Pow2(bits - shift) - 1);
      UnxorshiftInverts(z, bits - shift, shift, width);
      Reassemble(x, bits, shift, width);
    }
  }

  ghost function Top(x: nat, bits: nat, shift: nat, width: nat): nat
    requires 2 * shift < bits <= width
  {
    Pow2Monotone(bits - 2 * shift, width);
    And(Xorshift(Xorshift(x, shift), shift), Not(Pow2(bits - 2 * shift) - 1, width))
  }

  /** The top part already is the top part of x. */
  lemma BitOfTop(x: nat, bits: nat, shift: nat, width: nat, i: nat)
    requires 2 * shift < bits <= width && x < Pow2(bits)
    ensures Bit(Top(x, bits, shift, width), i) == (bits - 2 * shift <= i && Bit(x, i))
  {
    XorshiftBound(x, shift, bits);
    Pow2Monotone(bits, width);
    BitTop(Xorshift(x, shift), bits, shift, width, i);
    TwiceXorshift(x, shift, i);
    if bits - 2 * shift <= i { BitsBelow(x, bits, shift + (shift + i)); }
  }

  lemma BitLow(x: nat, n: nat, i: nat)
    ensures Bit(And(x, Pow2(n) - 1), i) == (i < n && Bit(x, i))
  {
    BitAnd(x, Pow2(n) - 1, i);
    BitMask(n, i);
  }

  /** The argument of the recursive call is the xorshift of the low bits - shift bits of x. */
  lemma UnxorshiftStep(x: nat, bits: nat, shift: nat, width: nat)
    requires 0 < shift && 2 * shift < bits <= width && x < Pow2(bits)
    ensures var x1 := Or(Top(x, bits, shift, width), And(Xorshift(x, shift), Pow2(bits - 2 * shift) - 1));
            And(x1, Pow2(bits - shift) - 1) == Xorshift(And(x, Pow2(bits - shift) - 1), shift)
  {
    var x1 := Or(Top(x, bits, shift, width), And(Xorshift(x, shift), Pow2(bits - 2 * shift) - 1));
    var l, r := And(x1, Pow2(bits - shift) - 1), Xorshift(And(x, Pow2(bits - shift) - 1), shift);
    forall i: nat ensures Bit(l, i) == Bit(r, i) { StepBit(x, bits, shift, width, i); }
    SameBits(l, r);
  }

  lemma StepBit(x: nat, bits: nat, shift: nat, width: nat, i: nat)
    requires 0 < shift && 2 * shift < bits <= width && x < Pow2(bits)
    ensures var x1 := Or(Top(x, bits, shift, width), And(Xorshift(x, shift), Pow2(bits - 2 * shift) - 1));
            Bit(And(x1, Pow2(bits - shift) - 1), i) == Bit(Xorshift(And(x, Pow2(bits - shift) - 1), shift), i)
  {
    var top, low := Top(x, bits, shift, width), And(Xorshift(x, shift), Pow2(bits - 2 * shift) - 1);
    BitLow(Or(top, low), bits - shift, i);
    BitOr(top, low, i);
    LeftBit(x, bits, shift, width, i);
    RightBit(x, bits - shift, shift, i);
  }

  lemma LeftBit(x: nat, bits: nat, shift: nat, width: nat, i: nat)
    requires 0 < shift && 2 * shift < bits <= width && x < Pow2(bits)
    ensures var low := And(Xorshift(x, shift), Pow2(bits - 2 * shift) - 1);
            (Bit(Top(x, bits, shift, width), i) || Bit(low, i))
            == if i < bits - 2 * shift then Bit(x, i) != Bit(x, shift + i) else Bit(x, i)
  {
    BitOfTop(x, bits, shift, width, i);
    BitLow(Xorshift(x, shift), bits - 2 * shift, i);
    BitXorshift(x, shift, i);
  }

  lemma RightBit(x: nat, n: nat, shift: nat, i: nat)
    ensures Bit(Xorshift(And(x, Pow2(n) - 1), shift), i)
            == ((i < n && Bit(x, i)) != (shift + i < n && Bit(x, shift + i)))
  {
    BitXorshift(And(x, Pow2(n) - 1), shift, i);
    BitLow(x, n, i);
    BitLow(x, n, shift + i);
  }

  lemma Reassemble(x: nat, bits: nat, shift: nat, width: nat)
    requires 0 < shift && 2 * shift < bits <= width && x < Pow2(bits)
    ensures Or(Top(x, bits, shift, width), And(And(x, Pow2(bits - shift) - 1), Pow2(bits - 2 * shift) - 1)) == x
  {
    var top, z := Top(x, bits, shift, width), And(x, Pow2(bits - shift) - 1);
    var r := Or(top, And(z, Pow2(bits - 2 * shift) - 1));
    forall i: nat ensures Bit(r, i) == Bit(x, i) {
      BitOr(top, And(z, Pow2(bits - 2 * shift) - 1), i);
      BitOfTop(x, bits, shift, width, i);
      BitLow(z, bits - 2 * shift, i);
      BitLow(x, bits - shift, i);
    }
    SameBits(r, x);
  }

  // ---------------------------------------------------------------- RXS M XS

  function OpBits(bits: nat): nat {
    if bits >= 128 then 6 else if bits >= 64 then 5 else if bits >= 32 then 4 else if bits >= 16 then 3 else 2
  }

  /** The data-dependent shift, read from the topmost bits. */
  function RandomShift(x: nat, bits: nat): nat
    requires bits >= 8
  {
    And(Shr(x, bits - OpBits(bits)), Pow2(OpBits(bits)) - 1)
  }

  /** rxs_m_xs_mixin::output with result and state of the same width. */
  function Output(x: nat, bits: nat, mult: nat): nat
    requires bits >= 8
  {
    var y := Xorshift(x, OpBits(bits) + RandomShift(x, bits));
    Xorshift((y * mult) % Pow2(bits), (2 * bits + 2) / 3)
  }

  function Unoutput(r: nat, bits: nat, unmult: nat): nat
    requires bits >= 8
  {
    var y := (Unxorshift(r, bits, (2 * bits + 2) / 3, bits) * unmult) % Pow2(bits);
    Unxorshift(y, bits, OpBits(bits) + RandomShift(y, bits), bits)
  }

  /** The topmost opbits bits survive the first xorshift, so its shift can be read off again. */
  lemma RandomShiftSurvives(x: nat, bits: nat)
    requires bits >= 8 && x < Pow2(bits)
    ensures RandomShift(Xorshift(x, OpBits(bits) + RandomShift(x, bits)), bits) == RandomShift(x, bits)
  {
    HighBitsSurvive(x, bits, OpBits(bits), OpBits(bits) + RandomShift(x, bits));
  }

  lemma HighBitsSurvive(x: nat, bits: nat, op: nat, s: nat)
    requires op <= bits && op <= s && x < Pow2(bits)
    ensures Shr(Xorshift(x, s), bits - op) == Shr(x, bits - op)
  {
    var n := bits - op;
    var u, v := Shr(Xorshift(x, s), n), Shr(x, n);
    forall i: nat ensures Bit(u, i) == Bit(v, i) {
      BitShr(x, n, i);
      BitShr(Xorshift(x, s), n, i);
      BitXorshift(x, s, n + i);
      BitsBelow(x, bits, s + (n + i));
    }
    SameBits(u, v);
  }

  /** Multiplying by a unit and by its inverse. */
  lemma UnmultiplyInverts(y: nat, m: nat, mult: nat, unmult: nat)
    requires m > 1 && y < m && (mult * unmult) % m == 1
    ensures (((y * mult) % m) * unmult) % m == y
  {
    ModReduce(unmult, y * mult, 0, m);
    assert unmult * ((y * mult) % m) == ((y * mult) % m) * unmult;
    ModReduce(y, mult * unmult, 0, m);
    assert unmult * (y * mult) == y * (mult * unmult) by { MulAssociative(y, mult, unmult); }
    DivModUnique(y, m, 0, y);
    assert y * 1 == y;
  }

  /** unoutput(output(x)) == x: the output function is a permutation of the states. */
  lemma UnoutputInverts(x: nat, bits: nat, mult: nat, unmult: nat)
    requires bits >= 8 && x < Pow2(bits) && (mult * unmult) % Pow2(bits) == 1
    ensures Unoutput(Output(x, bits, mult), bits, unmult) == x
  {
    var s := OpBits(bits) + RandomShift(x, bits);
    var y := Xorshift(x, s);
    XorshiftBound(x, s, bits);
    Pow2Monotone(1, bits);
    UnxorshiftInverts((y * mult) % Pow2(bits), bits, (2 * bits + 2) / 3, bits);
    UnmultiplyInverts(y, Pow2(bits), mult, unmult);
    RandomShiftSurvives(x, bits);
    UnxorshiftInverts(x, bits, s, bits);
  }

  // ---------------------------------------------------------------- a permutation

  ghost function Image(n: nat, f: nat -> nat): set<nat> { set x: nat | x < n :: f(x) }

  lemma {:induction false} ImageSize(n: nat, f: nat -> nat, g: nat -> nat)
    requires forall x: nat :: x < n ==> g(f(x)) == x
    ensures |Image(n, f)| == n
  {
    if n > 0 {
      ImageSize(n - 1, f, g);
      assert Image(n, f) == Image(n - 1, f) + {f(n - 1)};
      assert f(n - 1) !in Image(n - 1, f);
    }
  }

  /** On a finite set an inverse on one side is one on the other side. */
  lemma InverseOnBothSides(n: nat, f: nat -> nat, g: nat -> nat, y: nat)
    requires y < n && forall x: nat :: x < n ==> f(x) < n && g(f(x)) == x
    ensures f(g(y)) == y
  {
    var id := (x: nat) => x;
    ImageSize(n, f, g);
    ImageSize(n, id, id);
    forall z | z in Image(n, f) ensures z in Image(n, id) { assert id(z) == z; }
    SubsetOfSameSize(Image(n, f), Image(n, id));
    assert id(y) == y && y in Image(n, f);
  }

  lemma {:induction false} SubsetOfSameSize(a: set<nat>, b: set<nat>)
    requires a <= b && |a| == |b|
    ensures a == b
  {
    if x :| x in a { SubsetOfSameSize(a - {x}, b - {x}); }
  }

  lemma OutputBound(x: nat, bits: nat, mult: nat)
    requires bits >= 8
    ensures Output(x, bits, mult) < Pow2(bits)
  {
    var y := Xorshift(x, OpBits(bits) + RandomShift(x, bits));
    XorshiftBound((y * mult) % Pow2(bits), (2 * bits + 2) / 3, bits);
  }

  /** output(unoutput(y)) == y: every word is the output of exactly one state. */
  lemma OutputInverts(y: nat, bits: nat, mult: nat, unmult: nat)
    requires bits >= 8 && y < Pow2(bits) && (mult * unmult) % Pow2(bits) == 1
    ensures Output(Unoutput(y, bits, unmult), bits, mult) == y
  {
    var f, g := (x: nat) => Output(x, bits, mult), (x: nat) => Unoutput(x, bits, unmult);
    forall x: nat | x < Pow2(bits) ensures f(x) < Pow2(bits) && g(f(x)) == x {
      OutputBound(x, bits, mult);
      UnoutputInverts(x, bits, mult, unmult);
    }
    InverseOnBothSides(Pow2(bits), f, g, y);
  }

  // ---------------------------------------------------------------- the constants

  datatype Constants = Constants(multiplier: nat, unmultiplier: nat)

  /** mcg_multiplier and mcg_unmultiplier of the five word types. */
  function McgConstants(bits: nat): Constants
    requires bits in {8, 16, 32, 64, 128}
  {
    if bits == 8 then Constants(217, 105)
    else if bits == 16 then Constants(62169, 28009)
    else if bits == 32 then Constants(277803737, 2897767785)
    else if bits == 64 then Constants(12605985483714917081, 15009553638781119849)
    else Constants(17766728186571221404 * 0x1_0000_0000_0000_0000 + 12605985483714917081,
                   14422606686972528997 * 0x1_0000_0000_0000_0000 + 15009553638781119849)
  }

  lemma WordSizes()
    ensures Pow2(8) == 0x100 && Pow2(16) == 0x1_0000 && Pow2(32) == 0x1_0000_0000
    ensures Pow2(64) == 0x1_0000_0000_0000_0000 && Pow2(128) == 0x1_0000_0000_0000_0000_0000_0000_0000_0000
  {
    assert Pow2(8) == 0x100;
    Pow2Add(8, 8);
    Pow2Add(16, 16);
    Pow2Add(32, 32);
    Pow2Add(64, 64);
  }

  lemma McgConstantsAreInverse(bits: nat)
    requires bits in {8, 16, 32, 64, 128}
    ensures var c := McgConstants(bits); (c.multiplier * c.unmultiplier) % Pow2(bits) == 1
  {
    WordSizes();
  }

  /** At every word size the engines use, no output is produced by two states. */
  lemma OutputIsInvertible(x: nat, bits: nat)
    requires bits in {8, 16, 32, 64, 128} && x < Pow2(bits)
    ensures Unoutput(Output(x, bits, McgConstants(bits).multiplier), bits, McgConstants(bits).unmultiplier) == x
  {
    McgConstantsAreInverse(bits);
    UnoutputInverts(x, bits, McgConstants(bits).multiplier, McgConstants(bits).unmultiplier);
  }
}
