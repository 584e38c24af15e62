/** Consistent hashing by bit blocks: a value is mapped to one of n buckets so that growing n moves as few
    values as possible. The hash is given as four words a, b, c, d of `width` bits. */
module ConsistentHashing {
  import opened Bits

  /** GetValueBitCount: digits needed to write x in binary. */
  function BitLength(x: nat): nat {
    if x == 0 then 0 else 1 + BitLength(x / 2)
  }

  function PopCount(x: nat): nat {
    if x == 0 then 0 else x % 2 + PopCount(x / 2)
  }

  function SelectAOrBBlock(a: nat, b: nat, cBlock: nat): nat {
    if PopCount(cBlock) % 2 == 0 then a else b
  }

  /** The bucket chosen by a block of c: the top bit of the block, then bits of a or b. */
  function OfBlock(a: nat, b: nat, cBlock: nat): nat {
    if cBlock < 2 then cBlock
    else
      var y := BitLength(cBlock) - 1;
      Pow2(y) + And(SelectAOrBBlock(a, b, cBlock), Pow2(y) - 1)
  }

  /** The exact result for n = 2^k. */
  function ForPowersOf2(a: nat, b: nat, c: nat, k: nat): nat {
    OfBlock(a, b, And(c, Pow2(k) - 1))
  }

  const INT_BITS: nat := 32
  const WORD_BITS: nat := 64

  /** The bits of the four words that the large scheme does not look at, packed into 64 bits. A narrow d is
      shifted as a 32-bit integer. */
  function GetAsteriskBits(width: nat, a: nat, b: nat, c: nat, d: nat, k: nat): nat
    requires 1 <= k <= width
  {
    var shift := width - k;
    var res := Or(Cut(Shl(d, shift), if width < INT_BITS then INT_BITS else width), Shr(c, k));
    var res := Or(Cut(Shl(res, shift + 1), WORD_BITS), Shr(b, k - 1));
    Or(Cut(Shl(res, shift + 1), WORD_BITS), Shr(a, k - 1))
  }

  /** Smooth moving from the 2^(k - 1) scheme to the 2^k scheme: s / 2^k + 2^(k - 1), s being the asterisk bits
      modulo large * (large + 1). */
  function Smoothed(asterisk: nat, large: nat, k: nat): (r: nat)
    requires large > 0 && k >= 1
    ensures r >= Pow2(k - 1)
  {
    MulLe(1, large, large + 1);
    Shr(asterisk % (large * (large + 1)), k) + Pow2(k - 1)
  }

  datatype Outcome = Bucket(bucket: nat) | NoBuckets

  function Hash(width: nat, a: nat, b: nat, c: nat, d: nat, n: nat): Outcome
    requires width >= 1 && n <= Pow2(width - 1)
  {
    if n == 0 then NoBuckets
    else if n == 1 then Bucket(0)
    else
      BitLengthBounds(n - 1, width - 1);
      var k := BitLength(n - 1);
      var large := ForPowersOf2(a, b, c, k);
      if large < n then Bucket(large)
      else
        var large2 := Smoothed(GetAsteriskBits(width, a, b, c, d, k), large, k);
        if large2 < n then Bucket(large2)
        else Bucket(ForPowersOf2(a, b, c, k - 1))
  }

  // ---------------------------------------------------------------- bit lengths

  lemma {:induction false} BitLengthBounds(x: nat, e: nat)
    requires x < Pow2(e)
    ensures BitLength(x) <= e
  {
    if x > 0 { BitLengthBounds(x / 2, e - 1); }
  }

  lemma {:induction false} BitLengthRange(x: nat)
    requires x > 0
    ensures BitLength(x) >= 1 && Pow2(BitLength(x) - 1) <= x < Pow2(BitLength(x))
  {
    if x > 1 { BitLengthRange(x / 2); }
  }

  /** The bit length is the only y with 2^y <= x < 2^(y + 1), plus one. */
  lemma BitLengthUnique(x: nat, y: nat)
    requires Pow2(y) <= x < Pow2(y + 1)
    ensures BitLength(x) == y + 1
  {
    BitLengthRange(x);
    var z := BitLength(x) - 1;
    if z < y { Pow2Monotone(z + 1, y); } else if z > y { Pow2Monotone(y + 1, z); }
  }

  // ---------------------------------------------------------------- one octave

  /** A number is below 2^e exactly when its bit length is at most e. */
  lemma SameLengthSameBound(x: nat, y: nat, e: nat)
    requires BitLength(x) == BitLength(y) && x < Pow2(e)
    ensures y < Pow2(e)
  {
    BitLengthBounds(x, e);
    if y > 0 { BitLengthRange(y); Pow2Monotone(BitLength(y), e); }
  }

  /** The chosen bucket lies in the octave of its c block: both have the same bit length. */
  lemma BlockResultLength(a: nat, b: nat, cBlock: nat)
    ensures BitLength(OfBlock(a, b, cBlock)) == BitLength(cBlock)
  {
    if cBlock >= 2 {
      var y := OwnOctave(cBlock);
      AndAtMost(SelectAOrBBlock(a, b, cBlock), Pow2(y) - 1);
      BitLengthUnique(OfBlock(a, b, cBlock), y);
    }
  }

  lemma OwnOctave(x: nat) returns (y: nat)
    requires x > 0
    ensures y == BitLength(x) - 1 && Pow2(y) <= x < Pow2(y + 1) == 2 * Pow2(y)
  {
    BitLengthRange(x);
    y := BitLength(x) - 1;
  }

  lemma PowerResultRange(a: nat, b: nat, c: nat, k: nat)
    ensures ForPowersOf2(a, b, c, k) < Pow2(k)
    ensures BitLength(ForPowersOf2(a, b, c, k)) == BitLength(And(c, Pow2(k) - 1))
  {
    var cBlock := And(c, Pow2(k) - 1);
    AndAtMost(c, Pow2(k) - 1);
    BlockResultLength(a, b, cBlock);
    SameLengthSameBound(cBlock, OfBlock(a, b, cBlock), k);
  }

  lemma MaskShrinks(c: nat, k: nat)
    requires k >= 1 && And(c, Pow2(k) - 1) < Pow2(k - 1)
    ensures And(c, Pow2(k) - 1) == And(c, Pow2(k - 1) - 1)
  {
    var r, l := And(c, Pow2(k) - 1), And(c, Pow2(k - 1) - 1);
    forall i: nat ensures Bit(r, i) == Bit(l, i) {
      BitAnd(c, Pow2(k) - 1, i);
      BitAnd(c, Pow2(k - 1) - 1, i);
      BitMask(k, i);
      BitMask(k - 1, i);
      if i >= k - 1 { BitsBelow(r, k - 1, i); }
    }
    SameBits(r, l);
  }

  /** A result of the 2^k scheme below 2^(k - 1) is the result of the 2^(k - 1) scheme. */
  lemma SmallResultIsShared(a: nat, b: nat, c: nat, k: nat)
    requires k >= 1 && ForPowersOf2(a, b, c, k) < Pow2(k - 1)
    ensures ForPowersOf2(a, b, c, k) == ForPowersOf2(a, b, c, k - 1)
  {
    var cBlock := And(c, Pow2(k) - 1);
    BlockResultLength(a, b, cBlock);
    SameLengthSameBound(OfBlock(a, b, cBlock), cBlock, k - 1);
    MaskShrinks(c, k);
  }

  ghost predicate InOctave(n: nat, k: nat) {
    k >= 1 && Pow2(k - 1) < n <= Pow2(k)
  }

  lemma OctaveOf(n: nat, k: nat)
    requires InOctave(n, k)
    ensures n >= 2 && BitLength(n - 1) == k
  {
    Pow2Monotone(0, k - 1);
    BitLengthUnique(n - 1, k - 1);
  }

  ghost function Middle(width: nat, a: nat, b: nat, c: nat, d: nat, k: nat): nat
    requires 1 <= k <= width
  {
    var large := ForPowersOf2(a, b, c, k);
    if large == 0 then 0 else Smoothed(GetAsteriskBits(width, a, b, c, d, k), large, k)
  }

  /** What all n of the octave (2^(k - 1), 2^k] share: three values of which the first that is below n is the
      bucket; the first two are at least 2^(k - 1) unless they equal the third. */
  lemma OctaveForm(width: nat, a: nat, b: nat, c: nat, d: nat, n: nat, k: nat)
    requires InOctave(n, k) && k < width && n <= Pow2(width - 1)
    ensures var large, mid, short := ForPowersOf2(a, b, c, k), Middle(width, a, b, c, d, k), ForPowersOf2(a, b, c, k - 1);
            && Hash(width, a, b, c, d, n) == Bucket(if large < n then large else if mid < n then mid else short)
            && short < Pow2(k - 1) && (large >= Pow2(k - 1) || large == short) && (large > 0 ==> mid >= Pow2(k - 1))
  {
    OctaveOf(n, k);
    PowerResultRange(a, b, c, k - 1);
    if ForPowersOf2(a, b, c, k) < Pow2(k - 1) { SmallResultIsShared(a, b, c, k); }
  }

  // ---------------------------------------------------------------- minimal disruption

  /** Every result is a bucket number, and exactly the request for no buckets is refused. */
  lemma ResultInRange(width: nat, a: nat, b: nat, c: nat, d: nat, n: nat)
    requires width >= 1 && n <= Pow2(width - 1)
    ensures Hash(width, a, b, c, d, n).Bucket? <==> n > 0
    ensures n > 0 ==> Hash(width, a, b, c, d, n).bucket < n
  {
    if n >= 2 {
      var k := OctaveExists(n, width);
      OctaveForm(width, a, b, c, d, n, k);
    }
  }

  lemma OctaveExists(n: nat, width: nat) returns (k: nat)
    requires width >= 1 && 2 <= n <= Pow2(width - 1)
    ensures InOctave(n, k) && k < width
  {
    k := BitLength(n - 1);
    BitLengthRange(n - 1);
    BitLengthBounds(n - 1, width - 1);
  }

  /** Moving from n1 to n2 buckets, a value stays or goes to a new bucket. */
  ghost predicate Consistent(width: nat, a: nat, b: nat, c: nat, d: nat, n1: nat, n2: nat)
    requires width >= 1 && 1 <= n1 <= Pow2(width - 1) && 1 <= n2 <= Pow2(width - 1)
  {
    ResultInRange(width, a, b, c, d, n1);
    ResultInRange(width, a, b, c, d, n2);
    Hash(width, a, b, c, d, n2).bucket == Hash(width, a, b, c, d, n1).bucket || Hash(width, a, b, c, d, n2).bucket >= n1
  }

  lemma ConsistentInOctave(width: nat, a: nat, b: nat, c: nat, d: nat, n1: nat, n2: nat, k: nat)
    requires k < width && InOctave(n1, k) && InOctave(n2, k) && n1 <= n2 <= Pow2(width - 1)
    ensures Consistent(width, a, b, c, d, n1, n2)
  {
    OctaveForm(width, a, b, c, d, n1, k);
    OctaveForm(width, a, b, c, d, n2, k);
  }

  /** At the border n1 = 2^(k - 1) the short scheme is the large scheme of the octave below. */
  lemma ConsistentAtBorder(width: nat, a: nat, b: nat, c: nat, d: nat, n2: nat, k: nat)
    requires k < width && InOctave(n2, k) && n2 <= Pow2(width - 1)
    ensures Pow2(k - 1) <= Pow2(width - 1) && Consistent(width, a, b, c, d, Pow2(k - 1), n2)
  {
    OctaveForm(width, a, b, c, d, n2, k);
    Pow2Monotone(k - 1, width - 1);
    if k >= 2 {
      Pow2Monotone(k - 2, k - 1);
      OctaveForm(width, a, b, c, d, Pow2(k - 1), k - 1);
    }
  }

  lemma ConsistentTransitive(width: nat, a: nat, b: nat, c: nat, d: nat, n1: nat, n2: nat, n3: nat)
    requires width >= 1 && 1 <= n1 <= n2 <= n3 <= Pow2(width - 1)
    requires Consistent(width, a, b, c, d, n1, n2) && Consistent(width, a, b, c, d, n2, n3)
    ensures Consistent(width, a, b, c, d, n1, n3)
  {
  }

  /** For all hashes and all n1 < n2 in range: the bucket under n2 equals the bucket under n1 or is a new one. */
  lemma {:induction false} MinimalDisruption(width: nat, a: nat, b: nat, c: nat, d: nat, n1: nat, n2: nat)
    requires width >= 1 && 1 <= n1 <= n2 <= Pow2(width - 1)
    ensures Consistent(width, a, b, c, d, n1, n2)
    decreases n2
  {
    if n1 < n2 {
      var k := OctaveExists(n2, width);
      if n1 > Pow2(k - 1) {
        ConsistentInOctave(width, a, b, c, d, n1, n2, k);
      } else {
        ConsistentAtBorder(width, a, b, c, d, n2, k);
        MinimalDisruption(width, a, b, c, d, n1, Pow2(k - 1));
        ConsistentTransitive(width, a, b, c, d, n1, Pow2(k - 1), n2);
      }
    }
  }
}
