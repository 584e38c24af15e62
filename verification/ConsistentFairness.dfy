/** How evenly consistent hashing spreads all hash values, and how many of them move when n grows: exact counts. */
module ConsistentFairness {
  import opened Bits
  import opened ConsistentHashing
  import opened Sums

  // ---------------------------------------------------------------- all hash values

  /** The hash is one number: its lower half holds the words a and b, its upper half c and d. */
  function WordA(width: nat, x: nat): nat { Cut(Cut(x, 2 * width), width) }
  function WordB(width: nat, x: nat): nat { Shr(Cut(x, 2 * width), width) }
  function WordC(width: nat, x: nat): nat { Cut(Shr(x, 2 * width), width) }
  function WordD(width: nat, x: nat): nat { Shr(Shr(x, 2 * width), width) }

  lemma WordsByDivision(width: nat, x: nat)
    ensures WordA(width, x) == x % Pow2(2 * width) % Pow2(width) && WordB(width, x) == x % Pow2(2 * width) / Pow2(width)
    ensures WordC(width, x) == x / Pow2(2 * width) % Pow2(width)
  {
    CutIsMod(x, 2 * width);
    ShrIsDiv(x, 2 * width);
    CutIsMod(Cut(x, 2 * width), width);
    ShrIsDiv(Cut(x, 2 * width), width);
    CutIsMod(Shr(x, 2 * width), width);
  }

  function ConsistentHash(width: nat, x: nat, n: nat): Outcome
    requires width >= 1 && n <= Pow2(width - 1)
  {
    Hash(width, WordA(width, x), WordB(width, x), WordC(width, x), WordD(width, x), n)
  }

  function BucketOf(width: nat, x: nat, n: nat): (r: nat)
    requires width >= 1 && 1 <= n <= Pow2(width - 1)
    ensures r < n
  {
    ResultInRange(width, WordA(width, x), WordB(width, x), WordC(width, x), WordD(width, x), n);
    ConsistentHash(width, x, n).bucket
  }

  function PowerBucket(width: nat, x: nat, k: nat): nat {
    ForPowersOf2(WordA(width, x), WordB(width, x), WordC(width, x), k)
  }

  // ---------------------------------------------------------------- the power-of-two scheme

  ghost function Residue(m: nat, v: nat): nat -> nat
    requires m > 0
  {
    (i: nat) => if i % m == v then 1 else 0
  }

  /** Of all pairs of words below w = q * m, the ones whose low word has residue v modulo m, */
  lemma LowWords(n: nat, w: nat, q: nat, m: nat, v: nat, f: nat -> nat)
    requires n == w * w && w == q * m > 0 && v < m
    requires forall ab: nat :: ab < n ==> f(ab) == Residue(m, v)(ab % w)
    ensures Sum(n, f) == w * q
  {
    SumResidue(w, q, m, v, Residue(m, v));
    SumPeriodic(n, w, w, f, Residue(m, v));
  }

  /** and the ones whose high word has. */
  lemma HighWords(n: nat, w: nat, q: nat, m: nat, v: nat, f: nat -> nat)
    requires n == w * w && w == q * m > 0 && v < m
    requires forall ab: nat :: ab < n ==> f(ab) == Residue(m, v)(ab / w)
    ensures Sum(n, f) == w * q
  {
    SumResidue(w, q, m, v, Residue(m, v));
    SumOfQuotients(n, w, w, f, Residue(m, v));
  }

  /** For a block of c in octave y the scheme looks at y low bits of one of the other words. */
  lemma BlockForm(a: nat, b: nat, cBlock: nat, y: nat)
    requires Pow2(y) <= cBlock < Pow2(y + 1)
    ensures OfBlock(a, b, cBlock) == Pow2(y) + SelectAOrBBlock(a, b, cBlock) % Pow2(y)
  {
    if cBlock == 1 {
      Pow2Monotone(if y > 0 then 1 else 0, y);
      DivModUnique(SelectAOrBBlock(a, b, cBlock), 1, SelectAOrBBlock(a, b, cBlock), 0);
    } else {
      BitLengthUnique(cBlock, y);
      AndMask(SelectAOrBBlock(a, b, cBlock), y);
    }
  }

  lemma ResidueAt(m: nat, v: nat, x: nat)
    requires m > 0
    ensures Residue(m, v)(x) == Indicator(x % m == v)
  {
  }

  /** The bucket of a block is r: a residue of the chosen word. */
  lemma BlockHits(a: nat, b: nat, cBlock: nat, r: nat, y: nat, word: nat)
    requires BitLength(cBlock) == BitLength(r) == y + 1 && word == SelectAOrBBlock(a, b, cBlock)
    ensures Pow2(y) <= r < 2 * Pow2(y)
    ensures Indicator(OfBlock(a, b, cBlock) == r) == Residue(Pow2(y), r - Pow2(y))(word)
  {
    BitLengthRange(r);
    BitLengthRange(cBlock);
    BlockForm(a, b, cBlock, y);
    ResidueAt(Pow2(y), r - Pow2(y), word);
  }

  /** What a pair of words contributes to the count for r. */
  ghost predicate Hits(f: nat -> nat, n: nat, low: nat -> nat, high: nat -> nat, cBlock: nat, r: nat) {
    forall ab: nat :: ab < n ==> f(ab) == Indicator(OfBlock(low(ab), high(ab), cBlock) == r)
  }

  ghost function Low(w: nat): nat -> nat
    requires w > 0
  {
    (ab: nat) => ab % w
  }

  ghost function High(w: nat): nat -> nat
    requires w > 0
  {
    (ab: nat) => ab / w
  }

  lemma HitsByResidue(f: nat -> nat, n: nat, low: nat -> nat, high: nat -> nat, cBlock: nat, r: nat, y: nat)
    requires Hits(f, n, low, high, cBlock, r) && BitLength(cBlock) == BitLength(r) == y + 1
    ensures Pow2(y) <= r < 2 * Pow2(y)
    ensures var one := Residue(Pow2(y), r - Pow2(y));
            forall ab: nat :: ab < n ==> f(ab) == one(if PopCount(cBlock) % 2 == 0 then low(ab) else high(ab))
  {
    BitLengthRange(r);
    forall ab: nat | ab < n
      ensures f(ab) == Residue(Pow2(y), r - Pow2(y))(if PopCount(cBlock) % 2 == 0 then low(ab) else high(ab))
    {
      BlockHits(low(ab), high(ab), cBlock, r, y, SelectAOrBBlock(low(ab), high(ab), cBlock));
    }
  }

  /** From a block of the octave of r the words lead to r evenly, */
  lemma PairsInOctave(f: nat -> nat, n: nat, width: nat, cBlock: nat, r: nat, y: nat)
    requires n == Pow2(width) * Pow2(width) && y <= width && BitLength(cBlock) == BitLength(r) == y + 1
    requires Hits(f, n, Low(Pow2(width)), High(Pow2(width)), cBlock, r)
    ensures Sum(n, f) == Pow2(width) * Pow2(width - y)
  {
    Pow2Add(width - y, y);
    HitsByResidue(f, n, Low(Pow2(width)), High(Pow2(width)), cBlock, r, y);
    if PopCount(cBlock) % 2 == 0 {
      LowWords(n, Pow2(width), Pow2(width - y), Pow2(y), r - Pow2(y), f);
    } else {
      HighWords(n, Pow2(width), Pow2(width - y), Pow2(y), r - Pow2(y), f);
    }
  }

  /** from one of another octave never, */
  lemma PairsOutside(f: nat -> nat, n: nat, low: nat -> nat, high: nat -> nat, cBlock: nat, r: nat)
    requires Hits(f, n, low, high, cBlock, r) && BitLength(cBlock) != BitLength(r)
    ensures Sum(n, f) == 0
  {
    forall ab: nat | ab < n ensures f(ab) == 0 { BlockResultLength(low(ab), high(ab), cBlock); }
    SumConstant(n, f, 0);
  }

  /** and from 0 to 0 always. */
  lemma PairsZero(f: nat -> nat, n: nat, low: nat -> nat, high: nat -> nat)
    requires Hits(f, n, low, high, 0, 0)
    ensures Sum(n, f) == n
  {
    SumConstant(n, f, 1);
  }

  /** How many pairs lead a block of c in the octave of r to r. */
  ghost function Part(width: nat, r: nat): nat
    requires r < Pow2(width)
  {
    BitLengthBounds(r, width);
    if r == 0 then Pow2(width) * Pow2(width) else Pow2(width) * Pow2(width - (BitLength(r) - 1))
  }

  ghost function OfLength(length: nat, part: nat): nat -> nat {
    (cBlock: nat) => if BitLength(cBlock) == length then part else 0
  }

  lemma PairsOfBlock(f: nat -> nat, n: nat, width: nat, cBlock: nat, r: nat)
    requires r < Pow2(width) && n == Pow2(width) * Pow2(width)
    requires Hits(f, n, Low(Pow2(width)), High(Pow2(width)), cBlock, r)
    ensures Sum(n, f) == OfLength(BitLength(r), Part(width, r))(cBlock)
  {
    BitLengthBounds(r, width);
    if BitLength(cBlock) != BitLength(r) {
      PairsOutside(f, n, Low(Pow2(width)), High(Pow2(width)), cBlock, r);
    } else if r == 0 {
      PairsZero(f, n, Low(Pow2(width)), High(Pow2(width)));
    } else {
      PairsInOctave(f, n, width, cBlock, r, BitLength(r) - 1);
    }
  }

  /** The blocks of k bits and a given length. */
  lemma BlocksOfLength(k: nat, length: nat, part: nat)
    requires length <= k
    ensures Sum(Pow2(k), OfLength(length, part)) == (if length == 0 then 1 else Pow2(length - 1)) * part
  {
    var lo, hi := if length == 0 then 0 else Pow2(length - 1), Pow2(length);
    Pow2Monotone(length, k);
    forall c: nat | c < Pow2(k) ensures OfLength(length, part)(c) == if lo <= c < hi then part else 0 {
      LengthInterval(c, length);
    }
    SumInterval(Pow2(k), OfLength(length, part), lo, hi, part);
  }

  lemma LengthInterval(c: nat, length: nat)
    ensures BitLength(c) == length <==> (if length == 0 then 0 else Pow2(length - 1)) <= c < Pow2(length)
  {
    if c > 0 { BitLengthRange(c); }
    if length > 0 && Pow2(length - 1) <= c < Pow2(length) { BitLengthUnique(c, length - 1); }
  }

  /** Over all blocks of k bits, every bucket is reached by as many pairs as there are. */
  lemma BlocksToward(width: nat, k: nat, r: nat)
    requires k <= width && r < Pow2(k) <= Pow2(width)
    ensures Sum(Pow2(k), OfLength(BitLength(r), Part(width, r))) == Pow2(width) * Pow2(width)
  {
    BitLengthBounds(r, k);
    BlocksOfLength(k, BitLength(r), Part(width, r));
    PartTotal(width, r, BitLength(r));
  }

  lemma PartTotal(width: nat, r: nat, length: nat)
    requires r < Pow2(width) && length == BitLength(r)
    ensures (if length == 0 then 1 else Pow2(length - 1)) * Part(width, r) == Pow2(width) * Pow2(width)
  {
    BitLengthBounds(r, width);
    if r > 0 {
      Pow2Add(length - 1, width - (length - 1));
      MulSwap(Pow2(length - 1), Pow2(width), Pow2(width - (length - 1)));
    }
  }

  lemma MulSwap(x: nat, z: nat, w: nat)
    ensures x * (z * w) == z * (x * w)
  {
  }

  ghost function Reaching(width: nat, k: nat, r: nat): nat -> nat {
    (x: nat) => if PowerBucket(width, x, k) == r then 1 else 0
  }

  /** The words of a hash with the upper half hi and the lower half lo. */
  lemma PowerBucketOf(width: nat, k: nat, hi: nat, lo: nat, x: nat)
    requires k <= width && x % Pow2(2 * width) == lo && x / Pow2(2 * width) == hi
    ensures PowerBucket(width, x, k) == OfBlock(lo % Pow2(width), lo / Pow2(width), hi % Pow2(k))
  {
    WordsByDivision(width, x);
    BlockOfHash(width, k, hi, x);
  }

  lemma BlockOfHash(width: nat, k: nat, hi: nat, x: nat)
    requires k <= width && x / Pow2(2 * width) == hi
    ensures And(WordC(width, x), Pow2(k) - 1) == hi % Pow2(k)
  {
    ShrIsDiv(x, 2 * width);
    CutIsMod(hi, width);
    BlockOfWord(width, k, hi);
  }

  lemma BlockOfWord(width: nat, k: nat, hi: nat)
    requires k <= width
    ensures And(hi % Pow2(width), Pow2(k) - 1) == hi % Pow2(k)
  {
    AndMask(hi % Pow2(width), k);
    Pow2Add(k, width - k);
    ModOfMod(hi, Pow2(k), Pow2(width - k));
  }

  lemma HalfHits(width: nat, k: nat, r: nat, hi: nat, n: nat, base: nat)
    requires k <= width && n == Pow2(2 * width) && base == hi * n
    ensures Hits(Shifted(Reaching(width, k, r), base), n, Low(Pow2(width)), High(Pow2(width)), hi % Pow2(k), r)
  {
    forall ab: nat | ab < n
      ensures Shifted(Reaching(width, k, r), base)(ab)
              == Indicator(OfBlock(Low(Pow2(width))(ab), High(Pow2(width))(ab), hi % Pow2(k)) == r)
    {
      BlockResidue(hi, n, ab);
      PowerBucketOf(width, k, hi, ab, base + ab);
      HalfHit(width, k, r, base, ab, Pow2(width), hi % Pow2(k), PowerBucket(width, base + ab, k));
    }
  }

  lemma HalfHit(width: nat, k: nat, r: nat, base: nat, ab: nat, w: nat, cBlock: nat, bucket: nat)
    requires PowerBucket(width, base + ab, k) == bucket && w > 0 && OfBlock(ab % w, ab / w, cBlock) == bucket
    ensures Shifted(Reaching(width, k, r), base)(ab) == Indicator(OfBlock(Low(w)(ab), High(w)(ab), cBlock) == r)
  {
  }

  ghost function ByUpperHalf(width: nat, k: nat, r: nat): nat -> nat
    requires r < Pow2(width)
  {
    (hi: nat) => OfLength(BitLength(r), Part(width, r))(hi % Pow2(k))
  }

  /** Exactly fair: of the hashes whose upper half is below q * 2^k, every bucket below 2^k gets a 2^k-th part. */
  lemma PowerSchemeIsFair(width: nat, k: nat, q: nat, r: nat)
    requires k <= width && r < Pow2(k)
    ensures Sum((q * Pow2(k)) * Pow2(2 * width), Reaching(width, k, r)) == q * Pow2(2 * width)
  {
    var n, f := Pow2(2 * width), Reaching(width, k, r);
    Pow2Monotone(k, width);
    Pow2Add(width, width);
    forall hi: nat | hi < q * Pow2(k) ensures BlockSum(f, Times(n), n, hi, ByUpperHalf(width, k, r)(hi)) {
      HalfHits(width, k, r, hi, n, hi * n);
      PairsOfBlock(Shifted(f, hi * n), n, width, hi % Pow2(k), r);
    }
    TimesSteps(n);
    SumBlocks(q * Pow2(k), n, Times(n), f, ByUpperHalf(width, k, r));
    SumPeriodic(q * Pow2(k), q, Pow2(k), ByUpperHalf(width, k, r), OfLength(BitLength(r), Part(width, r)));
    BlocksToward(width, k, r);
  }

  /** In particular each of the 2^k buckets is the image of 2^(2k) of the 2^(3k) triples of k-bit words a, b, c. */
  lemma TriplesAreFair(k: nat, r: nat)
    requires r < Pow2(k)
    ensures Sum(Pow2(3 * k), Reaching(k, k, r)) == Pow2(2 * k)
  {
    TriplesOnce(k, 1, r, Pow2(3 * k), Pow2(2 * k));
  }

  lemma TriplesOnce(k: nat, q: nat, r: nat, triples: nat, pairs: nat)
    requires r < Pow2(k) && q == 1 && pairs == Pow2(2 * k) && triples == Pow2(3 * k)
    ensures Sum(triples, Reaching(k, k, r)) == pairs
  {
    Pow2Add(k, 2 * k);
    assert k + 2 * k == 3 * k && q * Pow2(k) == Pow2(k);
    PowerSchemeIsFair(k, k, q, r);
  }

  // ---------------------------------------------------------------- shares of the buckets

  /** The x below total with h(x) == r. */
  ghost function Preimage(total: nat, h: nat -> nat, r: nat): set<nat> {
    set x: nat | x < total && h(x) == r
  }

  /** How many they are. */
  ghost function Preimages(total: nat, h: nat -> nat): nat -> nat {
    (r: nat) => |Preimage(total, h, r)|
  }

  lemma PreimageStep(total: nat, h: nat -> nat, r: nat)
    ensures |Preimage(total + 1, h, r)| == |Preimage(total, h, r)| + if h(total) == r then 1 else 0
  {
    var less, all := Preimage(total, h, r), Preimage(total + 1, h, r);
    if h(total) == r {
      assert all == less + {total};
    } else {
      assert all == less;
    }
  }

  ghost function Sizes(h: nat -> nat, r: nat): nat -> nat {
    (total: nat) => |Preimage(total, h, r)|
  }

  lemma PreimageSum(total: nat, h: nat -> nat, r: nat)
    ensures |Preimage(total, h, r)| == Sum(total, Composed(Equals(r), h))
  {
    forall i: nat ensures Adds(Sizes(h, r), Composed(Equals(r), h), i) { PreimageStep(i, h, r); }
    assert Preimage(0, h, r) == {};
    SumOfSteps(total, Sizes(h, r), Composed(Equals(r), h));
  }

  ghost function Composed(f: nat -> nat, h: nat -> nat): nat -> nat {
    (x: nat) => f(h(x))
  }

  ghost function Below(m: nat): nat -> nat {
    (r: nat) => if r < m then 1 else 0
  }

  /** The preimages of all r below m are the x with h(x) below m. */
  lemma PreimagesBelow(total: nat, h: nat -> nat, m: nat)
    ensures Sum(m, Preimages(total, h)) == Sum(total, Composed(Below(m), h))
  {
    SumConstant(total, Composed(Below(0), h), 0);
    forall i: nat ensures Adds(BelowSums(total, h), Preimages(total, h), i) {
      BelowStep(total, h, i + 1);
      PreimageSum(total, h, i);
    }
    SumOfSteps(m, BelowSums(total, h), Preimages(total, h));
  }

  ghost function BelowSums(total: nat, h: nat -> nat): nat -> nat {
    (m: nat) => Sum(total, Composed(Below(m), h))
  }

  ghost predicate Adds(s: nat -> nat, p: nat -> nat, i: nat) {
    s(i + 1) == s(i) + p(i)
  }

  lemma {:induction false} SumOfSteps(m: nat, s: nat -> nat, p: nat -> nat)
    requires s(0) == 0 && forall i: nat :: Adds(s, p, i)
    ensures Sum(m, p) == s(m)
  {
    if m > 0 {
      SumOfSteps(m - 1, s, p);
      assert Adds(s, p, m - 1);
    }
  }

  lemma BelowStep(total: nat, h: nat -> nat, m: nat)
    requires m > 0
    ensures Sum(total, Composed(Below(m), h))
            == Sum(total, Composed(Below(m - 1), h)) + Sum(total, Composed(Equals(m - 1), h))
  {
    SplitAt(total, Composed(Below(m), h), Composed(Below(m - 1), h), Composed(Equals(m - 1), h), h, m - 1);
  }

  lemma SplitAt(total: nat, all: nat -> nat, less: nat -> nat, last: nat -> nat, h: nat -> nat, m: nat)
    requires forall x: nat {:trigger all(x)} :: all(x) == if h(x) < m + 1 then 1 else 0
    requires forall x: nat {:trigger less(x)} :: less(x) == if h(x) < m then 1 else 0
    requires forall x: nat {:trigger last(x)} :: last(x) == if h(x) == m then 1 else 0
    ensures Sum(total, all) == Sum(total, less) + Sum(total, last)
  {
    SumAdd(total, all, less, last);
  }

  /** The bucket of every hash value. */
  ghost function Buckets(width: nat, n: nat): nat -> nat
    requires width >= 1 && 1 <= n <= Pow2(width - 1)
  {
    (x: nat) => BucketOf(width, x, n)
  }

  /** How many of the 2^(4 * width) hash values go to bucket r. */
  ghost function Share(width: nat, n: nat, r: nat): nat
    requires width >= 1 && 1 <= n <= Pow2(width - 1)
  {
    Preimages(Pow2(4 * width), Buckets(width, n))(r)
  }

  /** All buckets get the same number of hash values. */
  ghost predicate Fair(width: nat, n: nat)
    requires width >= 1 && 1 <= n <= Pow2(width - 1)
  {
    forall r :: 0 <= r < n ==> Share(width, n, r) == Share(width, n, 0)
  }

  ghost predicate PowerOfTwo(n: nat) {
    exists k: nat :: n == Pow2(k)
  }

  /** Every hash value has a bucket: the shares add up. */
  lemma SharesAddUp(width: nat, n: nat)
    requires width >= 1 && 1 <= n <= Pow2(width - 1)
    ensures Sum(n, Preimages(Pow2(4 * width), Buckets(width, n))) == Pow2(4 * width)
  {
    PreimagesBelow(Pow2(4 * width), Buckets(width, n), n);
    SumConstant(Pow2(4 * width), Composed(Below(n), Buckets(width, n)), 1);
  }

  lemma FairShare(width: nat, n: nat)
    requires width >= 1 && 1 <= n <= Pow2(width - 1) && Fair(width, n)
    ensures n * Share(width, n, 0) == Pow2(4 * width)
  {
    SharesAddUp(width, n);
    FirstShares(width, n, n);
  }

  lemma FirstShares(width: nat, n: nat, m: nat)
    requires width >= 1 && 1 <= n <= Pow2(width - 1) && Fair(width, n) && m <= n
    ensures Sum(m, Preimages(Pow2(4 * width), Buckets(width, n))) == m * Share(width, n, 0)
  {
    var p := Preimages(Pow2(4 * width), Buckets(width, n));
    forall r: nat | r < m ensures p(r) == Share(width, n, 0) { assert Share(width, n, r) == Share(width, n, 0); }
    SumConstant(m, p, Share(width, n, 0));
  }

  lemma {:induction false} DivisorOfPower(n: nat, m: nat, e: nat)
    requires n * m == Pow2(e)
    ensures PowerOfTwo(n)
    decreases e
  {
    if e == 0 {
      if n > 1 && m > 0 { MulLe(1, m, n); }
      assert n == Pow2(0);
    } else if n % 2 == 0 {
      HalfProduct(n / 2, m, e);
      DivisorOfPower(n / 2, m, e - 1);
      var k: nat :| n / 2 == Pow2(k);
      assert n == Pow2(k + 1);
    } else {
      OddFactor(n, m);
      HalfProduct(m / 2, n, e);
      DivisorOfPower(n, m / 2, e - 1);
    }
  }

  lemma HalfProduct(h: nat, m: nat, e: nat)
    requires e > 0 && (2 * h) * m == Pow2(e)
    ensures h * m == Pow2(e - 1)
  {
    assert (2 * h) * m == 2 * (h * m);
  }

  lemma OddFactor(n: nat, m: nat)
    requires n % 2 == 1 && (n * m) % 2 == 0
    ensures m % 2 == 0
  {
    ModReduce(m, n, 0, 2);
  }

  /** For n = 2^k the large scheme always answers. */
  lemma PowerAnswers(width: nat, x: nat, k: nat)
    requires k < width && 1 <= Pow2(k) <= Pow2(width - 1)
    ensures BucketOf(width, x, Pow2(k)) == PowerBucket(width, x, k)
  {
    PowerResultRange(WordA(width, x), WordB(width, x), WordC(width, x), k);
    if k > 0 {
      Pow2Monotone(1, k);
      Pow2Monotone(k - 1, k);
      OctaveOf(Pow2(k), k);
    }
  }

  lemma SamePreimages(width: nat, k: nat, r: nat, total: nat)
    requires k < width && 1 <= Pow2(k) <= Pow2(width - 1)
    ensures Sum(total, Composed(Equals(r), Buckets(width, Pow2(k)))) == Sum(total, Reaching(width, k, r))
  {
    var f, g := Composed(Equals(r), Buckets(width, Pow2(k))), Reaching(width, k, r);
    forall x: nat ensures f(x) == g(x) { PowerAnswers(width, x, k); }
    SumEqual(total, f, g);
  }

  lemma PowerReached(width: nat, k: nat, r: nat)
    requires k < width && r < Pow2(k)
    ensures Sum(Pow2(4 * width), Reaching(width, k, r)) == Pow2(4 * width - k)
  {
    PowerSchemeIsFair(width, k, Pow2(2 * width - k), r);
    PowerTotals(2 * width, 4 * width, k);
  }

  lemma PowerShare(width: nat, k: nat, r: nat)
    requires k < width && r < Pow2(k) <= Pow2(width - 1)
    ensures Share(width, Pow2(k), r) == Pow2(4 * width - k)
  {
    PowerReached(width, k, r);
    SamePreimages(width, k, r, Pow2(4 * width));
    PreimageSum(Pow2(4 * width), Buckets(width, Pow2(k)), r);
  }

  lemma PowerTotals(half: nat, whole: nat, k: nat)
    requires whole == half + half && k <= half
    ensures (Pow2(half - k) * Pow2(k)) * Pow2(half) == Pow2(whole) && Pow2(half - k) * Pow2(half) == Pow2(whole - k)
  {
    Pow2Add(half - k, k);
    Pow2Add(half, half);
    Pow2Add(half - k, half);
  }

  /** The buckets get equally many of all hash values if and only if their number is a power of two. */
  lemma FairExactlyForPowers(width: nat, n: nat)
    requires width >= 1 && 1 <= n <= Pow2(width - 1)
    ensures Fair(width, n) <==> PowerOfTwo(n)
  {
    if Fair(width, n) {
      FairShare(width, n);
      DivisorOfPower(n, Share(width, n, 0), 4 * width);
    }
    if PowerOfTwo(n) {
      var k: nat :| n == Pow2(k);
      if k >= width { Pow2Monotone(width, k); }
      forall r | 0 <= r < n ensures Share(width, n, r) == Share(width, n, 0) {
        PowerShare(width, k, r);
        PowerShare(width, k, 0);
      }
    }
  }

  // ---------------------------------------------------------------- hash values that move

  ghost function Moves(width: nat, n1: nat, n2: nat): nat -> nat
    requires width >= 1 && 1 <= n1 <= n2 <= Pow2(width - 1)
  {
    (x: nat) => if BucketOf(width, x, n1) != BucketOf(width, x, n2) then 1 else 0
  }

  /** How many hash values change their bucket when n1 grows to n2. */
  ghost function Moved(width: nat, n1: nat, n2: nat): nat
    requires width >= 1 && 1 <= n1 <= n2 <= Pow2(width - 1)
  {
    |Preimage(Pow2(4 * width), Moves(width, n1, n2), 1)|
  }

  lemma MovedSum(width: nat, n1: nat, n2: nat, total: nat)
    requires width >= 1 && 1 <= n1 <= n2 <= Pow2(width - 1)
    ensures |Preimage(total, Moves(width, n1, n2), 1)| == Sum(total, Moves(width, n1, n2))
  {
    var f, g := Composed(Equals(1), Moves(width, n1, n2)), Moves(width, n1, n2);
    PreimageSum(total, g, 1);
    forall x: nat ensures f(x) == g(x) {}
    SumEqual(total, f, g);
  }

  /** A hash value moves exactly when it goes to a new bucket. */
  lemma MovesToNew(width: nat, x: nat, n1: nat, n2: nat)
    requires width >= 1 && 1 <= n1 <= n2 <= Pow2(width - 1)
    ensures BucketOf(width, x, n1) != BucketOf(width, x, n2) <==> BucketOf(width, x, n2) >= n1
  {
    MinimalDisruption(width, WordA(width, x), WordB(width, x), WordC(width, x), WordD(width, x), n1, n2);
  }

  /** What moves is what the old buckets do not keep. */
  lemma MovedAndKept(width: nat, n1: nat, n2: nat)
    requires width >= 1 && 1 <= n1 <= n2 <= Pow2(width - 1)
    ensures Moved(width, n1, n2) + Sum(n1, Preimages(Pow2(4 * width), Buckets(width, n2))) == Pow2(4 * width)
  {
    var total, kept := Pow2(4 * width), Composed(Below(n1), Buckets(width, n2));
    forall x: nat ensures Constant(1)(x) == Moves(width, n1, n2)(x) + kept(x) { MovesToNew(width, x, n1, n2); }
    SumAdd(total, Constant(1), Moves(width, n1, n2), kept);
    SumConstant(total, Constant(1), 1);
    PreimagesBelow(total, Buckets(width, n2), n1);
    MovedSum(width, n1, n2, total);
  }

  /** The part of the hash values that moves is exactly (n2 - n1) / n2, the least possible. */
  ghost predicate MovesLeast(width: nat, n1: nat, n2: nat)
    requires width >= 1 && 1 <= n1 <= n2 <= Pow2(width - 1)
  {
    n2 * Moved(width, n1, n2) == (n2 - n1) * Pow2(4 * width)
  }

  lemma PowerMovesLeast(width: nat, n1: nat, n2: nat)
    requires width >= 1 && 1 <= n1 <= n2 <= Pow2(width - 1) && PowerOfTwo(n2)
    ensures MovesLeast(width, n1, n2)
  {
    FairExactlyForPowers(width, n2);
    FairShare(width, n2);
    MovedAndKept(width, n1, n2);
    FirstShares(width, n2, n1);
    MovedFraction(n1, n2, Share(width, n2, 0), Moved(width, n1, n2), Pow2(4 * width));
  }

  lemma MovedFraction(n1: nat, n2: nat, share: nat, moved: nat, total: nat)
    requires n2 * share == total && moved + n1 * share == total
    ensures n2 * moved == (n2 - n1) * total
  {
    assert n2 * (total - n1 * share) == n2 * total - n1 * (n2 * share);
  }

  /** Growing to n2 moves exactly the promised part from every n1 if and only if n2 is a power of two. */
  lemma LeastMovesExactlyForPowers(width: nat, n2: nat)
    requires width >= 1 && 1 <= n2 <= Pow2(width - 1)
    ensures (forall n1 :: 1 <= n1 <= n2 ==> MovesLeast(width, n1, n2)) <==> PowerOfTwo(n2)
  {
    if forall n1 :: 1 <= n1 <= n2 ==> MovesLeast(width, n1, n2) {
      if n2 == 1 {
        assert n2 == Pow2(0);
      } else {
        assert MovesLeast(width, n2 - 1, n2);
        DivisorOfPower(n2, Moved(width, n2 - 1, n2), 4 * width);
      }
    }
    if PowerOfTwo(n2) {
      forall n1 | 1 <= n1 <= n2 ensures MovesLeast(width, n1, n2) { PowerMovesLeast(width, n1, n2); }
    }
  }
}
