/** The bucket of a hash by the bits of the hash. With words of w bits, the bits of a are the lowest w, then those of b, c and d. */
module ConsistentBits {
  import opened Bits
  import opened ConsistentHashing
  import opened ConsistentFairness
  import opened ConsistentAsterisk
  import opened ConsistentShares

  // ---------------------------------------------------------------- bits of parts

  lemma {:induction false} BitCut(x: nat, n: nat, i: nat)
    ensures Bit(Cut(x, n), i) == (i < n && Bit(x, i))
    decreases n
  {
    if n == 0 {
      ZeroBits(i);
    } else if i > 0 {
      BitCut(x / 2, n - 1, i - 1);
      assert (x % 2 + 2 * Cut(x / 2, n - 1)) / 2 == Cut(x / 2, n - 1);
    }
  }

  lemma {:induction false} BitJoined(hi: nat, s: nat, lo: nat, i: nat)
    requires lo < Pow2(s)
    ensures Bit(Shl(hi, s) + lo, i) == if i < s then Bit(lo, i) else Bit(hi, i - s)
    decreases s
  {
    if s > 0 {
      assert (Shl(hi, s) + lo) / 2 == Shl(hi, s - 1) + lo / 2 && (Shl(hi, s) + lo) % 2 == lo % 2;
      if i > 0 { BitJoined(hi, s - 1, lo / 2, i - 1); }
    }
  }

  lemma BitOfWords(width: nat, x: nat, i: nat)
    ensures Bit(WordA(width, x), i) == (i < width && Bit(x, i))
    ensures Bit(WordB(width, x), i) == (i < width && Bit(x, width + i))
    ensures Bit(WordC(width, x), i) == (i < width && Bit(x, 2 * width + i))
  {
    BitCut(Cut(x, 2 * width), width, i);
    BitCut(x, 2 * width, i);
    BitShr(Cut(x, 2 * width), width, i);
    BitCut(x, 2 * width, width + i);
    BitCut(Shr(x, 2 * width), width, i);
    BitShr(x, 2 * width, i);
  }

  // ---------------------------------------------------------------- counting ones

  /** The set bits of x among the lowest n. */
  ghost function Ones(x: nat, n: nat): set<nat> {
    set i: nat | i < n && Bit(x, i)
  }

  lemma {:induction false} PopCountStep(x: nat, n: nat)
    ensures PopCount(Cut(x, n + 1)) == PopCount(Cut(x, n)) + if Bit(x, n) then 1 else 0
    decreases n
  {
    PopCountHalf(x % 2, Cut(x / 2, n));
    if n > 0 {
      PopCountStep(x / 2, n - 1);
      PopCountHalf(x % 2, Cut(x / 2, n - 1));
    }
  }

  lemma PopCountHalf(b: nat, c: nat)
    requires b < 2
    ensures PopCount(b + 2 * c) == b + PopCount(c)
  {
    if b + 2 * c > 0 { assert (b + 2 * c) / 2 == c && (b + 2 * c) % 2 == b; }
  }

  /** The population count is the number of set bits. */
  lemma {:induction false} PopCountIsOnes(x: nat, n: nat)
    ensures PopCount(Cut(x, n)) == |Ones(x, n)|
  {
    if n > 0 {
      PopCountIsOnes(x, n - 1);
      PopCountStep(x, n - 1);
      assert Ones(x, n) == Ones(x, n - 1) + if Bit(x, n - 1) then {n - 1} else {};
    } else {
      assert Ones(x, 0) == {};
    }
  }

  lemma PopCountOfWord(x: nat, n: nat)
    requires x < Pow2(n)
    ensures PopCount(x) == |Ones(x, n)|
  {
    PopCountIsOnes(x, n);
    CutBelow(x, n);
  }

  lemma {:induction false} CutBelow(x: nat, n: nat)
    requires x < Pow2(n)
    ensures Cut(x, n) == x
  {
    if n > 0 { CutBelow(x / 2, n - 1); }
  }

  // ---------------------------------------------------------------- the power-of-two scheme

  /** A bit of c. */
  predicate BitOfC(width: nat, x: nat, i: nat) {
    Bit(x, 2 * width + i)
  }

  /** The set bits among the lowest k of c. */
  ghost function BlockOnes(width: nat, x: nat, k: nat): set<nat> {
    set i: nat | i < k && BitOfC(width, x, i)
  }

  /** y is the highest of them. */
  ghost predicate TopOne(width: nat, x: nat, k: nat, y: nat) {
    y < k && BitOfC(width, x, y) && forall i: nat :: y < i < k ==> !BitOfC(width, x, i)
  }

  /** The bits of bucket r: bit y, and below it those of a if the number of ones is even, else those of b. */
  ghost predicate HasBits(width: nat, x: nat, k: nat, y: nat, r: nat) {
    forall i: nat :: Bit(r, i) ==
      (i == y || (i < y && Bit(x, if |BlockOnes(width, x, k)| % 2 == 0 then i else width + i)))
  }

  lemma BlockOfC(width: nat, x: nat, k: nat)
    requires k <= width
    ensures And(WordC(width, x), Pow2(k) - 1) == Cut(WordC(width, x), k) < Pow2(k)
    ensures Ones(WordC(width, x), k) == BlockOnes(width, x, k)
    ensures forall i: nat :: Bit(Cut(WordC(width, x), k), i) == (i < k && BitOfC(width, x, i))
  {
    var c := WordC(width, x);
    MaskIsCut(c, k);
    CutIsMod(c, k);
    forall i: nat
      ensures Bit(Cut(c, k), i) == (i < k && BitOfC(width, x, i)) && (i < k ==> Bit(c, i) == BitOfC(width, x, i))
    {
      BitCut(c, k, i);
      BitOfWords(width, x, i);
    }
  }

  /** A number is between 2^y and 2^(y + 1) exactly if y is its highest set bit. */
  lemma TopBitRange(c: nat, y: nat)
    requires Bit(c, y) && forall i: nat :: i > y ==> !Bit(c, i)
    ensures Pow2(y) <= c < Pow2(y + 1)
  {
    if c < Pow2(y) { BitsBelow(c, y, y); }
    forall i: nat ensures Bit(c, i) == Bit(Cut(c, y + 1), i) { BitCut(c, y + 1, i); }
    SameBits(c, Cut(c, y + 1));
    CutIsMod(c, y + 1);
  }

  lemma OfBlockBits(a: nat, b: nat, c: nat, y: nat, i: nat)
    requires Pow2(y) <= c < Pow2(y + 1)
    ensures Bit(OfBlock(a, b, c), i) == (i == y || (i < y && Bit(SelectAOrBBlock(a, b, c), i)))
  {
    var word := SelectAOrBBlock(a, b, c);
    BitLengthUnique(c, y);
    MaskIsCut(word, y);
    CutIsMod(word, y);
    BitJoined(1, y, Cut(word, y), i);
    ShlIsMul(1, y);
    BitCut(word, y, i);
    if i > y { ZeroBits(i - y - 1); }
    if y > 0 { Pow2Monotone(1, y); }
  }

  /** The 2^k scheme takes the highest one of the lowest k bits of c, and the bits below it from a or b as the number of those
      ones is even or odd; */
  lemma PowerBucketBits(width: nat, x: nat, k: nat, y: nat)
    requires k <= width && TopOne(width, x, k, y)
    ensures HasBits(width, x, k, y, PowerBucket(width, x, k))
  {
    var a, b, c := WordA(width, x), WordB(width, x), Cut(WordC(width, x), k);
    BlockOfC(width, x, k);
    TopBitRange(c, y);
    PopCountIsOnes(WordC(width, x), k);
    forall i: nat
      ensures Bit(PowerBucket(width, x, k), i)
              == (i == y || (i < y && Bit(x, if |BlockOnes(width, x, k)| % 2 == 0 then i else width + i)))
    {
      OfBlockBits(a, b, c, y, i);
      BitOfWords(width, x, i);
    }
  }

  /** without such a one it gives bucket zero. */
  lemma PowerBucketZero(width: nat, x: nat, k: nat)
    requires k <= width && BlockOnes(width, x, k) == {}
    ensures PowerBucket(width, x, k) == 0
  {
    var c := Cut(WordC(width, x), k);
    BlockOfC(width, x, k);
    forall i: nat ensures Bit(c, i) == Bit(0, i) {
      ZeroBits(i);
      assert i !in BlockOnes(width, x, k);
    }
    SameBits(c, 0);
  }

  // ---------------------------------------------------------------- the smooth scheme

  /** Where the bits of the smooth scheme come from: what is left of a, of b, and of c and d. */
  function Place(width: nat, k: nat, i: nat): nat
    requires 1 <= k <= width
  {
    var s := width - k + 1;
    if i < s then k - 1 + i else if i < 2 * s then width + (k - 1 + (i - s)) else 2 * width + (k + (i - 2 * s))
  }

  lemma FreeBit(width: nat, x: nat, k: nat, i: nat)
    requires 1 <= k <= width && x < Pow2(4 * width)
    ensures Bit(Free(width, k, x), i) == Bit(x, Place(width, k, i))
  {
    var s := width - k + 1;
    var e, bHigh, aHigh := Shr(Shr(x, 2 * width), k), Shr(WordB(width, x), k - 1), Shr(WordA(width, x), k - 1);
    WordBounds(width, k, x);
    BitJoined(Shl(e, s) + bHigh, s, aHigh, i);
    if i < s {
      BitShr(WordA(width, x), k - 1, i);
      BitOfWords(width, x, k - 1 + i);
    } else {
      BitJoined(e, s, bHigh, i - s);
      if i < 2 * s {
        BitShr(WordB(width, x), k - 1, i - s);
        BitOfWords(width, x, k - 1 + (i - s));
      } else {
        BitShr(Shr(x, 2 * width), k, i - 2 * s);
        BitShr(x, 2 * width, k + (i - 2 * s));
      }
    }
  }

  /** The asterisk bits of a hash, each by its place in the hash. */
  lemma AsteriskByPlace(width: nat, x: nat, k: nat, i: nat)
    requires 1 <= k <= width <= INT_BITS && x < Pow2(4 * width)
    ensures Bit(AsteriskOf(width, x, k), i) == (i < AsteriskBits(width, k) && Bit(x, Place(width, k, i)))
  {
    AsteriskIsFree(width, x, k);
    BitCut(Free(width, k, x), AsteriskBits(width, k), i);
    FreeBit(width, x, k, i);
  }

  // ---------------------------------------------------------------- all buckets

  /** r is what the 2^k scheme gives. */
  ghost predicate PowerResult(width: nat, x: nat, k: nat, r: nat) {
    (BlockOnes(width, x, k) == {} && r == 0) || exists y: nat :: TopOne(width, x, k, y) && HasBits(width, x, k, y, r)
  }

  lemma {:induction false} TopOneOf(width: nat, x: nat, k: nat) returns (y: nat)
    requires BlockOnes(width, x, k) != {}
    ensures TopOne(width, x, k, y)
  {
    var some: nat :| some in BlockOnes(width, x, k);
    if BitOfC(width, x, k - 1) {
      y := k - 1;
    } else {
      assert some in BlockOnes(width, x, k - 1);
      y := TopOneOf(width, x, k - 1);
    }
  }

  lemma PowerResultIs(width: nat, x: nat, k: nat)
    requires k <= width
    ensures PowerResult(width, x, k, PowerBucket(width, x, k))
  {
    if BlockOnes(width, x, k) == {} {
      PowerBucketZero(width, x, k);
    } else {
      var y := TopOneOf(width, x, k);
      PowerBucketBits(width, x, k, y);
    }
  }

  /** The bits make the result unique. */
  lemma PowerResultUnique(width: nat, x: nat, k: nat, r: nat)
    requires k <= width && PowerResult(width, x, k, r)
    ensures r == PowerBucket(width, x, k)
  {
    if BlockOnes(width, x, k) == {} {
      PowerBucketZero(width, x, k);
      forall y: nat ensures !TopOne(width, x, k, y) { assert y !in BlockOnes(width, x, k); }
    } else {
      var y: nat :| TopOne(width, x, k, y) && HasBits(width, x, k, y, r);
      PowerBucketBits(width, x, k, y);
      var p := PowerBucket(width, x, k);
      forall i: nat ensures Bit(r, i) == Bit(p, i) { }
      SameBits(r, p);
    }
  }

  /** The bits of s are the asterisk bits. */
  ghost predicate AsteriskResult(width: nat, x: nat, k: nat, s: nat)
    requires 1 <= k <= width <= INT_BITS
  {
    forall i: nat :: Bit(s, i) == (i < AsteriskBits(width, k) && Bit(x, Place(width, k, i)))
  }

  lemma AsteriskUnique(width: nat, x: nat, k: nat, s: nat)
    requires 1 <= k <= width <= INT_BITS && x < Pow2(4 * width) && AsteriskResult(width, x, k, s)
    ensures s == AsteriskOf(width, x, k)
  {
    var t := AsteriskOf(width, x, k);
    forall i: nat ensures Bit(s, i) == Bit(t, i) { AsteriskByPlace(width, x, k, i); }
    SameBits(s, t);
  }

  /** The bucket of every hash for every number of buckets: large and short are given by the bits of the hash, and so is s. */
  lemma BucketByBits(width: nat, x: nat, n: nat, k: nat, large: nat, short: nat, s: nat)
    requires InOctave(n, k) && k < width <= INT_BITS && n <= Pow2(width - 1) && x < Pow2(4 * width)
    requires PowerResult(width, x, k, large) && PowerResult(width, x, k - 1, short) && AsteriskResult(width, x, k, s)
    ensures large < n ==> BucketOf(width, x, n) == large
    ensures large >= n ==> large > 0 && BucketOf(width, x, n)
                           == var mid := s % (large * (large + 1)) / Pow2(k) + Pow2(k - 1); if mid < n then mid else short
  {
    PowerResultUnique(width, x, k, large);
    PowerResultUnique(width, x, k - 1, short);
    AsteriskUnique(width, x, k, s);
    BucketForm(width, x, n, k);
    if large >= n { SmoothedByDivision(s, large, k); }
  }

  lemma SmoothedByDivision(s: nat, large: nat, k: nat)
    requires large > 0 && k >= 1
    ensures large * (large + 1) > 0 && Smoothed(s, large, k) == s % (large * (large + 1)) / Pow2(k) + Pow2(k - 1)
  {
    MulLe(1, large, large + 1);
    ShrIsDiv(s % (large * (large + 1)), k);
  }
}
