/** The exact share of every bucket, for every number of buckets, and what follows from it. */
module ConsistentShares {
  import opened Bits
  import opened Sums
  import opened ConsistentHashing
  import opened ConsistentFairness
  import opened ConsistentAsterisk
  import opened ConsistentSmooth

  // ---------------------------------------------------------------- the exact share

  /** Which short results lead to bucket r: a bucket of the lower half needs itself, the others are not reached so. */
  ghost function Weight(k: nat, r: nat): nat -> nat
    requires k >= 1
  {
    if r < Pow2(k - 1) then Equals(r) else Constant(1)
  }

  /** Do asterisk bits s lead to bucket r, when the large result is large: by the smooth scheme, or past it? */
  ghost predicate Lands(k: nat, n: nat, r: nat, large: nat, s: nat)
    requires k >= 1 && large > 0
  {
    if r < Pow2(k - 1) then Smoothed(s, large, k) >= n else Smoothed(s, large, k) == r
  }

  ghost function Landing(k: nat, n: nat, r: nat, large: nat): nat -> nat
    requires k >= 1 && large > 0
  {
    (s: nat) => if Lands(k, n, r, large, s) then 1 else 0
  }

  /** How many values of the asterisk bits lead to r from the large result n + i. */
  ghost function Landed(bits: nat, k: nat, n: nat, r: nat): nat -> nat
    requires k >= 1 && n > 0
  {
    (i: nat) => Sum(Pow2(bits), Landing(k, n, r, n + i))
  }

  /** How many hashes there are for each of them. */
  ghost function Factor(width: nat, k: nat, r: nat): nat
    requires 1 <= k <= width <= INT_BITS
  {
    if r < Pow2(k - 1) then Unit(width, k) else Pow2(k - 1) * Unit(width, k)
  }

  /** The contribution of a hash with the large result n + i. */
  ghost function TermAt(width: nat, k: nat, n: nat, r: nat, i: nat, x: nat): nat
    requires 1 <= k <= width && n > 0
  {
    Mul(if PowerBucket(width, x, k) == n + i then Weight(k, r)(PowerBucket(width, x, k - 1)) else 0,
        Landing(k, n, r, n + i)(AsteriskOf(width, x, k)))
  }

  /** f holds the contributions. */
  ghost predicate Terms(f: (nat, nat) -> nat, width: nat, k: nat, n: nat, r: nat)
    requires 1 <= k <= width && n > 0
  {
    forall i: nat, x: nat :: TermIs(f, width, k, n, r, i, x)
  }

  ghost predicate TermIs(f: (nat, nat) -> nat, width: nat, k: nat, n: nat, r: nat, i: nat, x: nat)
    requires 1 <= k <= width && n > 0
  {
    f(i, x) == TermAt(width, k, n, r, i, x)
  }

  lemma MakeTerms(width: nat, k: nat, n: nat, r: nat) returns (f: (nat, nat) -> nat)
    requires 1 <= k <= width && n > 0
    ensures Terms(f, width, k, n, r)
  {
    f := (i: nat, x: nat) => TermAt(width, k, n, r, i, x);
  }

  /** The bucket of a hash in the octave of n. */
  lemma BucketForm(width: nat, x: nat, n: nat, k: nat)
    requires InOctave(n, k) && k < width && n <= Pow2(width - 1)
    ensures var large, short := PowerBucket(width, x, k), PowerBucket(width, x, k - 1);
            && short < Pow2(k - 1) && large < Pow2(k)
            && BucketOf(width, x, n) == if large < n then large
                                        else var mid := Smoothed(AsteriskOf(width, x, k), large, k);
                                             if mid < n then mid else short
  {
    OctaveForm(width, WordA(width, x), WordB(width, x), WordC(width, x), WordD(width, x), n, k);
    PowerResultRange(WordA(width, x), WordB(width, x), WordC(width, x), k);
  }

  /** The contributions of one hash add up to whether its bucket is r, unless the large scheme already answers. */
  lemma TermsOfHash(f: (nat, nat) -> nat, width: nat, k: nat, n: nat, r: nat, x: nat)
    requires InOctave(n, k) && k < width && r < n <= Pow2(width - 1) && Terms(f, width, k, n, r)
    ensures Equals(r)(BucketOf(width, x, n)) == Reaching(width, k, r)(x) + ColumnSum(Pow2(k) - n, f)(x)
  {
    BucketForm(width, x, n, k);
    if PowerBucket(width, x, k) < n {
      NoTerms(f, width, k, n, r, x, Pow2(k) - n);
    } else {
      OneTerm(f, width, k, n, r, x, Pow2(k) - n, PowerBucket(width, x, k) - n);
      TermValue(width, k, n, r, x);
    }
  }

  lemma NoTerms(f: (nat, nat) -> nat, width: nat, k: nat, n: nat, r: nat, x: nat, m: nat)
    requires 1 <= k <= width && PowerBucket(width, x, k) < n && Terms(f, width, k, n, r)
    ensures Sum(m, Column(f, x)) == 0
  {
    forall i: nat | i < m ensures Column(f, x)(i) == 0 { assert TermIs(f, width, k, n, r, i, x); }
    SumConstant(m, Column(f, x), 0);
  }

  lemma OneTerm(f: (nat, nat) -> nat, width: nat, k: nat, n: nat, r: nat, x: nat, m: nat, i0: nat)
    requires 1 <= k <= width && n > 0 && PowerBucket(width, x, k) == n + i0 && i0 < m && Terms(f, width, k, n, r)
    ensures Sum(m, Column(f, x)) == TermAt(width, k, n, r, i0, x)
  {
    var v := TermAt(width, k, n, r, i0, x);
    forall i: nat | i < m ensures Column(f, x)(i) == if i0 <= i < i0 + 1 then v else 0 {
      assert TermIs(f, width, k, n, r, i, x);
    }
    SumInterval(m, Column(f, x), i0, i0 + 1, v);
  }

  lemma TermValue(width: nat, k: nat, n: nat, r: nat, x: nat)
    requires InOctave(n, k) && k < width && r < n <= Pow2(width - 1) && PowerBucket(width, x, k) >= n
    ensures TermAt(width, k, n, r, PowerBucket(width, x, k) - n, x) == Equals(r)(BucketOf(width, x, n))
  {
    BucketForm(width, x, n, k);
  }

  /** The contributions of one large result. */
  lemma TermsOfLarge(f: (nat, nat) -> nat, width: nat, k: nat, n: nat, r: nat, i: nat)
    requires InOctave(n, k) && k < width <= INT_BITS && Terms(f, width, k, n, r) && n + i < Pow2(k)
    ensures RowSum(Pow2(4 * width), f)(i)
            == Mul(Landed(AsteriskBits(width, k), k, n, r)(i), Factor(width, k, r))
  {
    RowWeighs(f, width, k, n, r, i);
    WeightSum(Row(f, i), width, k, n + i, Weight(k, r), Landing(k, n, r, n + i));
    FactorForm(width, k, r, Sum(Pow2(AsteriskBits(width, k)), Landing(k, n, r, n + i)));
  }

  lemma RowWeighs(f: (nat, nat) -> nat, width: nat, k: nat, n: nat, r: nat, i: nat)
    requires 1 <= k <= width && n > 0 && Terms(f, width, k, n, r)
    ensures Weighs(Row(f, i), width, k, n + i, Weight(k, r), Landing(k, n, r, n + i))
  {
    var row, weight, beta := Row(f, i), Weight(k, r), Landing(k, n, r, n + i);
    var large := n + i;
    forall x: nat | x < Pow2(4 * width) ensures WeighsAt(row, width, k, large, weight, beta, x) {
      assert TermIs(f, width, k, n, r, i, x);
    }
  }

  lemma FactorForm(width: nat, k: nat, r: nat, landed: nat)
    requires 1 <= k <= width <= INT_BITS
    ensures Mul(Mul(Sum(Pow2(k - 1), Weight(k, r)), landed), Unit(width, k)) == Mul(landed, Factor(width, k, r))
  {
    var w, u := Sum(Pow2(k - 1), Weight(k, r)), Unit(width, k);
    if r < Pow2(k - 1) { OneEqual(Pow2(k - 1), r); } else { SumConstant(Pow2(k - 1), Constant(1), 1); }
    FactorProduct(w, landed, u, Factor(width, k, r));
  }

  lemma FactorProduct(w: nat, landed: nat, u: nat, factor: nat)
    requires factor == w * u
    ensures Mul(Mul(w, landed), u) == Mul(landed, factor)
  {
    MulIsProduct(w, landed);
    MulIsProduct(w * landed, u);
    MulIsProduct(landed, factor);
    assert (w * landed) * u == landed * (w * u);
  }

  /** landed(i) is the number of asterisk bits that lead to r from the large result n + i. */
  ghost predicate LandedAt(landed: nat -> nat, bits: nat, k: nat, n: nat, r: nat, i: nat)
    requires k >= 1 && n > 0
  {
    landed(i) == Landed(bits, k, n, r)(i)
  }

  ghost predicate AllLanded(landed: nat -> nat, bits: nat, k: nat, n: nat, r: nat)
    requires k >= 1 && n > 0
  {
    forall i: nat :: LandedAt(landed, bits, k, n, r, i)
  }

  /** The exact share of a bucket: what the large scheme sends to it, and what it cannot place that lands there. */
  lemma ShareByLanded(width: nat, k: nat, n: nat, r: nat, landed: nat -> nat)
    requires InOctave(n, k) && k < width <= INT_BITS && r < n <= Pow2(width - 1)
    requires AllLanded(landed, AsteriskBits(width, k), k, n, r)
    ensures Share(width, n, r) == Pow2(4 * width - k) + Mul(Sum(Pow2(k) - n, landed), Factor(width, k, r))
  {
    var share, own, more := MakeParts(width, k, n, r, Pow2(k) - n, landed);
    AddParts(Pow2(4 * width), share, own, more);
  }

  /** The same with the numbers of asterisk bits written out. */
  lemma ShareFormula(width: nat, k: nat, n: nat, r: nat)
    requires InOctave(n, k) && k < width <= INT_BITS && r < n <= Pow2(width - 1)
    ensures Share(width, n, r)
            == Pow2(4 * width - k)
               + Mul(Sum(Pow2(k) - n, Landed(AsteriskBits(width, k), k, n, r)), Factor(width, k, r))
  {
    ShareByLanded(width, k, n, r, Landed(AsteriskBits(width, k), k, n, r));
  }

  lemma AddParts(total: nat, share: nat -> nat, own: nat -> nat, more: nat -> nat)
    requires forall x: nat :: AddsAt(share, own, more, x)
    ensures Sum(total, share) == Sum(total, own) + Sum(total, more)
  {
    forall x: nat ensures share(x) == own(x) + more(x) { assert AddsAt(share, own, more, x); }
    SumAdd(total, share, own, more);
  }

  ghost predicate AddsAt(share: nat -> nat, own: nat -> nat, more: nat -> nat, x: nat) {
    share(x) == own(x) + more(x)
  }

  lemma MakeParts(width: nat, k: nat, n: nat, r: nat, m: nat, landed: nat -> nat)
    returns (share: nat -> nat, own: nat -> nat, more: nat -> nat)
    requires InOctave(n, k) && k < width <= INT_BITS && r < n <= Pow2(width - 1) && m == Pow2(k) - n
    requires AllLanded(landed, AsteriskBits(width, k), k, n, r)
    ensures Sum(Pow2(4 * width), share) == Share(width, n, r) && Sum(Pow2(4 * width), own) == Pow2(4 * width - k)
    ensures Sum(Pow2(4 * width), more) == Mul(Sum(m, landed), Factor(width, k, r))
    ensures forall x: nat :: AddsAt(share, own, more, x)
  {
    var f := MakeTerms(width, k, n, r);
    share := MakeShare(width, n, r);
    own := MakeOwn(width, k, r);
    more := MakeMore(f, width, k, n, r, m, landed);
    forall x: nat ensures AddsAt(share, own, more, x) {
      assert ShareAt(share, width, n, r, x) && OwnAt(own, width, k, r, x) && MoreAt(more, f, m, x);
      TermsOfHash(f, width, k, n, r, x);
    }
  }

  ghost predicate ShareAt(share: nat -> nat, width: nat, n: nat, r: nat, x: nat)
    requires width >= 1 && 1 <= n <= Pow2(width - 1)
  {
    share(x) == Equals(r)(BucketOf(width, x, n))
  }

  lemma MakeShare(width: nat, n: nat, r: nat) returns (share: nat -> nat)
    requires width >= 1 && 1 <= n <= Pow2(width - 1)
    ensures Sum(Pow2(4 * width), share) == Share(width, n, r) && forall x: nat :: ShareAt(share, width, n, r, x)
  {
    share := Composed(Equals(r), Buckets(width, n));
    PreimageSum(Pow2(4 * width), Buckets(width, n), r);
  }

  ghost predicate OwnAt(own: nat -> nat, width: nat, k: nat, r: nat, x: nat) {
    own(x) == Reaching(width, k, r)(x)
  }

  lemma MakeOwn(width: nat, k: nat, r: nat) returns (own: nat -> nat)
    requires k < width && r < Pow2(k)
    ensures Sum(Pow2(4 * width), own) == Pow2(4 * width - k) && forall x: nat :: OwnAt(own, width, k, r, x)
  {
    own := Reaching(width, k, r);
    PowerReached(width, k, r);
  }

  ghost predicate MoreAt(more: nat -> nat, f: (nat, nat) -> nat, m: nat, x: nat) {
    more(x) == ColumnSum(m, f)(x)
  }

  lemma MakeMore(f: (nat, nat) -> nat, width: nat, k: nat, n: nat, r: nat, m: nat, landed: nat -> nat)
    returns (more: nat -> nat)
    requires InOctave(n, k) && k < width <= INT_BITS && Terms(f, width, k, n, r) && n + m == Pow2(k)
    requires AllLanded(landed, AsteriskBits(width, k), k, n, r)
    ensures Sum(Pow2(4 * width), more) == Mul(Sum(m, landed), Factor(width, k, r))
    ensures forall x: nat :: MoreAt(more, f, m, x)
  {
    more := ColumnSum(m, f);
    TermSum(f, width, k, n, r, m, landed);
  }

  lemma TermSum(f: (nat, nat) -> nat, width: nat, k: nat, n: nat, r: nat, m: nat, landed: nat -> nat)
    requires InOctave(n, k) && k < width <= INT_BITS && Terms(f, width, k, n, r) && n + m == Pow2(k)
    requires AllLanded(landed, AsteriskBits(width, k), k, n, r)
    ensures Sum(Pow2(4 * width), ColumnSum(m, f)) == Mul(Sum(m, landed), Factor(width, k, r))
  {
    var rows := RowSum(Pow2(4 * width), f);
    SumExchange(m, Pow2(4 * width), f);
    forall i: nat | i < m ensures rows(i) == Mul(landed(i), Factor(width, k, r)) {
      assert LandedAt(landed, AsteriskBits(width, k), k, n, r, i);
      TermsOfLarge(f, width, k, n, r, i);
    }
    SumMultiplied(m, rows, landed, Factor(width, k, r));
  }
}
