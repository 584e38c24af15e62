/** What the output function does to a state, in bits and numbers: it is the only word with these bits. */
module PcgMixing {
  import opened Bits
  import opened PcgOutput

  /** The constant from which the multipliers of all word sizes are cut off. */
  const UNIVERSAL_MULTIPLIER: nat := 327738287884841127335028083622016905945

  /** Every bit of y is that of x, turned round if the bit `shift` places above is set. */
  ghost predicate Folded(x: nat, shift: nat, y: nat) {
    forall i: nat :: Bit(y, i) == (Bit(x, i) != Bit(x, shift + i))
  }

  /** By how much the first fold shifts: the number in the topmost bits, and as many places as these are. */
  function FirstShift(bits: nat, x: nat): nat
    requires bits in {8, 16, 32, 64, 128}
  {
    if bits == 8 then 2 + x / 0x40
    else if bits == 16 then 3 + x / 0x2000
    else if bits == 32 then 4 + x / 0x1000_0000
    else if bits == 64 then 5 + x / 0x0800_0000_0000_0000
    else 6 + x / 0x0400_0000_0000_0000_0000_0000_0000_0000
  }

  function LastShift(bits: nat): nat
    requires bits in {8, 16, 32, 64, 128}
  {
    if bits == 8 then 6 else if bits == 16 then 11 else if bits == 32 then 22 else if bits == 64 then 43 else 86
  }

  /** The state folded, multiplied and folded again. */
  ghost predicate Mixed(bits: nat, x: nat, r: nat)
    requires bits in {8, 16, 32, 64, 128}
  {
    exists y: nat :: Folded(x, FirstShift(bits, x), y)
                     && Folded((y * UNIVERSAL_MULTIPLIER) % Pow2(bits), LastShift(bits), r)
  }

  lemma FoldedUnique(x: nat, shift: nat, y: nat, z: nat)
    requires Folded(x, shift, y) && Folded(x, shift, z)
    ensures y == z
  {
    forall i: nat ensures Bit(y, i) == Bit(z, i) {
      assert Bit(y, i) == (Bit(x, i) != Bit(x, shift + i));
    }
    SameBits(y, z);
  }

  /** Only one word is the mixed state. */
  lemma MixedUnique(bits: nat, x: nat, r: nat, r': nat)
    requires bits in {8, 16, 32, 64, 128} && Mixed(bits, x, r) && Mixed(bits, x, r')
    ensures r == r'
  {
    var y: nat :| Folded(x, FirstShift(bits, x), y)
                  && Folded((y * UNIVERSAL_MULTIPLIER) % Pow2(bits), LastShift(bits), r);
    var z: nat :| Folded(x, FirstShift(bits, x), z)
                  && Folded((z * UNIVERSAL_MULTIPLIER) % Pow2(bits), LastShift(bits), r');
    FoldedUnique(x, FirstShift(bits, x), y, z);
    FoldedUnique((y * UNIVERSAL_MULTIPLIER) % Pow2(bits), LastShift(bits), r, r');
  }

  lemma XorshiftFolds(x: nat, shift: nat)
    ensures Folded(x, shift, Xorshift(x, shift))
  {
    var y := Xorshift(x, shift);
    forall i: nat ensures Bit(y, i) == (Bit(x, i) != Bit(x, shift + i)) { BitXorshift(x, shift, i); }
  }

  /** The bits that choose the shift are as many as can number all bit positions but one. */
  lemma OpBitsCount(bits: nat)
    requires bits in {8, 16, 32, 64, 128}
    ensures Pow2(OpBits(bits) + 1) == bits
  {
    assert Pow2(3) == 8;
    assert Pow2(6) == 64;
  }

  lemma TopPowers()
    ensures Pow2(6) == 0x40 && Pow2(13) == 0x2000 && Pow2(28) == 0x1000_0000
    ensures Pow2(59) == 0x0800_0000_0000_0000 && Pow2(122) == 0x0400_0000_0000_0000_0000_0000_0000_0000
  {
    WordSizes();
    assert Pow2(6) == 0x40;
    assert Pow2(3) == 8 && Pow2(4) == 16 && Pow2(5) == 32;
    Pow2Add(13, 3);
    Pow2Add(28, 4);
    Pow2Add(59, 5);
    Pow2Add(122, 6);
  }

  lemma QuotientBound(x: nat, m: nat, n: nat)
    requires m > 0 && x < m * n
    ensures x / m < n
  {
    if x / m >= n { MulLe(n, x / m, m); }
  }

  lemma ShiftByTop(x: nat, bits: nat, low: nat, op: nat)
    requires low + op == bits && x < Pow2(bits)
    ensures And(Shr(x, low), Pow2(op) - 1) == x / Pow2(low)
  {
    var m, n := Pow2(low), Pow2(op);
    ShrIsDiv(x, low);
    Pow2Add(low, op);
    QuotientBound(x, m, n);
    AndMask(x / m, op);
    SmallModulo(x / m, n);
  }

  lemma SmallModulo(q: nat, n: nat)
    requires q < n
    ensures q % n == q
  {
  }

  /** The data-dependent shift is read off by a division. */
  lemma FirstShiftIsRandom(bits: nat, x: nat)
    requires bits in {8, 16, 32, 64, 128} && x < Pow2(bits)
    ensures OpBits(bits) + RandomShift(x, bits) == FirstShift(bits, x)
  {
    TopPowers();
    ShiftByTop(x, bits, bits - OpBits(bits), OpBits(bits));
  }

  /** The multipliers are the low bits of the universal one. */
  lemma MultiplierIsTruncated(bits: nat)
    requires bits in {8, 16, 32, 64, 128}
    ensures McgConstants(bits).multiplier == UNIVERSAL_MULTIPLIER % Pow2(bits)
  {
    WordSizes();
  }

  /** The output of every state at every word size. */
  lemma OutputIsMixed(bits: nat, x: nat)
    requires bits in {8, 16, 32, 64, 128} && x < Pow2(bits)
    ensures Mixed(bits, x, Output(x, bits, McgConstants(bits).multiplier))
  {
    var m, mult := Pow2(bits), McgConstants(bits).multiplier;
    FirstShiftIsRandom(bits, x);
    var y := Xorshift(x, FirstShift(bits, x));
    XorshiftFolds(x, FirstShift(bits, x));
    MultiplierIsTruncated(bits);
    ModReduce(y, UNIVERSAL_MULTIPLIER, 0, m);
    XorshiftFolds((y * mult) % m, (2 * bits + 2) / 3);
    assert LastShift(bits) == (2 * bits + 2) / 3;
  }
}
