/** How far the share of a bucket is from an even share, for every number of buckets. */
module ConsistentEvenness {
  import opened Bits
  import opened Sums
  import opened ConsistentHashing
  import opened ConsistentFairness
  import opened ConsistentAsterisk
  import opened ConsistentSmooth
  import opened ConsistentShares

  function Abs(x: int): nat {
    if x < 0 then -x else x
  }

  // ---------------------------------------------------------------- residues in an interval

  ghost function Within(lo: nat, hi: nat): nat -> nat {
    (v: nat) => if lo <= v < hi then 1 else 0
  }

  /** f says which s have a residue modulo m in [lo, hi). */
  ghost predicate Counts(f: nat -> nat, m: nat, lo: nat, hi: nat)
    requires m > 0
  {
    forall s: nat :: CountsAt(f, m, lo, hi, s)
  }

  ghost predicate CountsAt(f: nat -> nat, m: nat, lo: nat, hi: nat, s: nat)
    requires m > 0
  {
    f(s) == Within(lo, hi)(s % m)
  }

  lemma {:induction false} WithinAtMost(n: nat, lo: nat, hi: nat)
    requires lo <= hi
    ensures Sum(n, Within(lo, hi)) <= if n <= lo then 0 else hi - lo
    ensures lo < n <= hi ==> Sum(n, Within(lo, hi)) == n - lo
  {
    if n > 0 { WithinAtMost(n - 1, lo, hi); }
  }

  lemma WithinAll(m: nat, lo: nat, hi: nat)
    requires lo <= hi <= m
    ensures Sum(m, Within(lo, hi)) == hi - lo
  {
    forall i: nat | i < m ensures Within(lo, hi)(i) == if lo <= i < hi then 1 else 0 {}
    SumInterval(m, Within(lo, hi), lo, hi, 1);
  }

  /** Full periods and a rest. */
  lemma CountResidues(f: nat -> nat, total: nat, m: nat, lo: nat, hi: nat) returns (q: nat, rest: nat, part: nat)
    requires m > 0 && lo <= hi <= m && Counts(f, m, lo, hi)
    ensures total == q * m + rest && rest < m && part <= hi - lo && Sum(total, f) == q * (hi - lo) + part
  {
    q, rest := total / m, total % m;
    var base := q * m;
    assert total == base + rest;
    SumSplit(base, rest, f);
    forall i: nat | i < base ensures f(i) == Within(lo, hi)(i % m) { assert CountsAt(f, m, lo, hi, i); }
    SumPeriodic(base, q, m, f, Within(lo, hi));
    WithinAll(m, lo, hi);
    RestOfResidues(f, q, base, rest, m, lo, hi);
    WithinAtMost(rest, lo, hi);
    part := Sum(rest, Within(lo, hi));
  }

  lemma RestOfResidues(f: nat -> nat, q: nat, base: nat, rest: nat, m: nat, lo: nat, hi: nat)
    requires m > 0 && base == q * m && rest < m && Counts(f, m, lo, hi)
    ensures Sum(rest, Shifted(f, base)) == Sum(rest, Within(lo, hi))
  {
    forall i: nat | i < rest ensures Shifted(f, base)(i) == Within(lo, hi)(i) {
      assert CountsAt(f, m, lo, hi, base + i);
      BlockResidue(q, m, i);
    }
    SumEqual(rest, Shifted(f, base), Within(lo, hi));
  }

  /** The count is proportional to the length of the interval, up to that length. */
  lemma ResiduesAreEven(f: nat -> nat, total: nat, m: nat, lo: nat, hi: nat)
    requires m > 0 && lo <= hi <= m && Counts(f, m, lo, hi)
    ensures Abs(m * Sum(total, f) - total * (hi - lo)) <= m * (hi - lo)
  {
    var q, rest, part := CountResidues(f, total, m, lo, hi);
    EvenAlgebra(m, q, rest, part, hi - lo, Sum(total, f), total);
  }

  lemma EvenAlgebra(m: nat, q: nat, rest: nat, part: nat, h: nat, count: nat, total: nat)
    requires rest < m && part <= h && total == q * m + rest && count == q * h + part
    ensures Abs(m * count - total * h) <= m * h
  {
    assert m * (q * h + part) == (q * m) * h + m * part;
    assert (q * m + rest) * h == (q * m) * h + rest * h;
    MulLe(part, h, m);
    MulLe(0, part, m);
    MulLe(rest, m, h);
    MulLe(0, rest, h);
  }

  // ---------------------------------------------------------------- the sum over the large results

  /** Counts c(i) are within h of total * h divided by (n + i) * (n + i + 1). */
  ghost predicate NearAt(c: nat -> nat, n: nat, total: nat, h: nat, i: nat) {
    Abs(((n + i) * (n + i + 1)) * c(i) - total * h) <= ((n + i) * (n + i + 1)) * h
  }

  /** Since 1 / (L * (L + 1)) = 1 / L - 1 / (L + 1), the sum telescopes. */
  lemma {:induction false} Telescoped(c: nat -> nat, n: nat, total: nat, h: nat, m: nat)
    requires n > 0 && forall i: nat :: i < m ==> NearAt(c, n, total, h, i)
    ensures Abs((n * (n + m)) * Sum(m, c) - (total * h) * m) <= ((n * (n + m)) * m) * h
  {
    if m > 0 {
      Telescoped(c, n, total, h, m - 1);
      assert NearAt(c, n, total, h, m - 1);
      TelescopeStep(n, n + m - 1, m - 1, Sum(m - 1, c), c(m - 1), total * h, h);
    }
  }

  /** The factors e, n and f in front, in any order. */
  lemma Gather(e: int, n: int, f: int, z: int)
    ensures e * ((n * f) * z) == (n * (e * f)) * z && f * ((n * e) * z) == (n * (e * f)) * z
    ensures n * ((e * f) * z) == (n * (e * f)) * z
  {
    MulAssociative(e, n * f, z);
    MulAssociative(f, n * e, z);
    MulAssociative(n, e * f, z);
    assert e * (n * f) == n * (e * f);
    assert f * (n * e) == n * (e * f);
  }

  lemma Distribute(p: int, x: int, y: int)
    ensures p * (x + y) == p * x + p * y && p * (x - y) == p * x - p * y
  {
  }

  lemma TelescopeIdentity(n: int, e: int, f: int, i: int, s: int, c: int, k: int)
    requires e == n + i && f == e + 1
    ensures e * ((n * f) * (s + c) - k * (i + 1)) == f * ((n * e) * s - k * i) + n * ((e * f) * c - k)
  {
    Gather(e, n, f, s);
    Gather(e, n, f, c);
    Gather(e, n, f, s + c);
    Distribute(n * (e * f), s, c);
    Distribute(e, (n * f) * (s + c), k * (i + 1));
    Distribute(f, (n * e) * s, k * i);
    Distribute(n, (e * f) * c, k);
    ConstantPart(n, e, f, i, k);
  }

  lemma ConstantPart(n: int, e: int, f: int, i: int, k: int)
    requires e == n + i && f == e + 1
    ensures e * (k * (i + 1)) == f * (k * i) + n * k
  {
    var z := k * i;
    Distribute(k, i, 1);
    Distribute(e, z, k);
    Distribute(k, n, i);
    assert f * z == e * z + z;
    assert e * k == k * e && n * k == k * n;
  }

  lemma TelescopeStep(n: nat, e: nat, i: nat, s: nat, c: nat, k: nat, h: nat)
    requires n > 0 && e == n + i
    requires Abs((n * e) * s - k * i) <= ((n * e) * i) * h && Abs((e * (e + 1)) * c - k) <= (e * (e + 1)) * h
    ensures Abs((n * (e + 1)) * (s + c) - k * (i + 1)) <= ((n * (e + 1)) * (i + 1)) * h
  {
    var d, err := (n * e) * s - k * i, (e * (e + 1)) * c - k;
    var d' := (n * (e + 1)) * (s + c) - k * (i + 1);
    TelescopeIdentity(n, e, e + 1, i, s, c, k);
    BoundedStep(n, e, e + 1, i, d, err, d', h);
  }

  lemma BoundedStep(n: nat, e: nat, f: nat, i: nat, d: int, err: int, d': int, h: nat)
    requires n > 0 && e == n + i && f == e + 1 && e * d' == f * d + n * err
    requires Abs(d) <= ((n * e) * i) * h && Abs(err) <= (e * f) * h
    ensures Abs(d') <= ((n * f) * (i + 1)) * h
  {
    BoundSum(n, e, f, i, h);
    BoundedQuotient(e, f, n, d, err, d', ((n * e) * i) * h, (e * f) * h, ((n * f) * (i + 1)) * h);
  }

  lemma BoundSum(n: nat, e: nat, f: nat, i: nat, h: nat)
    ensures f * (((n * e) * i) * h) + n * ((e * f) * h) == e * (((n * f) * (i + 1)) * h)
  {
    MulAssociative(n * e, i, h);
    MulAssociative(n * f, i + 1, h);
    Gather(e, n, f, i * h);
    Gather(e, n, f, h);
    Gather(e, n, f, (i + 1) * h);
    Distribute(n * (e * f), i * h, h);
    assert (i + 1) * h == i * h + h;
  }

  lemma BoundedQuotient(e: nat, f: nat, n: nat, d: int, err: int, d': int, b1: nat, b2: nat, b: nat)
    requires e > 0 && e * d' == f * d + n * err && Abs(d) <= b1 && Abs(err) <= b2 && f * b1 + n * b2 == e * b
    ensures Abs(d') <= b
  {
    MulLe(0 - b1, d, f);
    MulLe(d, b1, f);
    MulLe(0 - b2, err, n);
    MulLe(err, b2, n);
    assert f * (0 - b1) == 0 - f * b1 && n * (0 - b2) == 0 - n * b2;
    if d' > b { MulLe(b + 1, d', e); }
    if d' < 0 - b { MulLe(d', 0 - b - 1, e); }
  }

  // ---------------------------------------------------------------- what lands where

  lemma ShrInterval(v: nat, k: nat, j: nat)
    ensures Shr(v, k) >= j <==> v >= j * Pow2(k)
    ensures Shr(v, k) == j <==> j * Pow2(k) <= v < (j + 1) * Pow2(k)
  {
    ShrIsDiv(v, k);
    QuotientInterval(v, Pow2(k), j);
    QuotientInterval(v, Pow2(k), j + 1);
  }

  lemma QuotientInterval(v: nat, p: nat, j: nat)
    requires p > 0
    ensures v / p >= j <==> v >= j * p
  {
    var q := v / p;
    if q >= j { MulLe(j, q, p); } else { MulLe(q + 1, j, p); }
  }

  /** The interval of the smooth scheme fits below the modulus. */
  lemma IntervalFits(n: nat, h: nat, large: nat)
    requires h <= n <= large
    ensures (n - h) * (2 * h) <= large * (large + 1)
  {
    var d := n - h;
    assert (d + h) * (d + h) == d * d + d * (2 * h) + h * h;
    MulLe(0, d, d);
    MulLe(0, h, h);
    MulLe(n, large, n);
    MulLe(n, large + 1, large);
  }

  lemma SmoothedModulus(large: nat)
    requires large > 0
    ensures large * (large + 1) > 0
  {
    MulLe(1, large, large + 1);
  }

  /** A bucket of the upper half is reached for the residues of one interval of length 2^k, */
  lemma UpperCounts(k: nat, n: nat, r: nat, large: nat)
    requires k >= 1 && Pow2(k - 1) <= r < n <= large
    ensures var m, j := large * (large + 1), r - Pow2(k - 1);
            m > 0 && (j + 1) * Pow2(k) <= m && Counts(Landing(k, n, r, large), m, j * Pow2(k), (j + 1) * Pow2(k))
  {
    var m, j := large * (large + 1), r - Pow2(k - 1);
    SmoothedModulus(large);
    IntervalFits(n, Pow2(k - 1), large);
    MulLe(j + 1, n - Pow2(k - 1), Pow2(k));
    var f, lo, hi := Landing(k, n, r, large), j * Pow2(k), (j + 1) * Pow2(k);
    forall s: nat ensures CountsAt(f, m, lo, hi, s) {
      ShrInterval(s % m, k, j);
      assert Landing(k, n, r, large)(s) == if Lands(k, n, r, large, s) then 1 else 0;
    }
  }

  /** one of the lower half for all but an interval. */
  lemma LowerCounts(k: nat, n: nat, r: nat, large: nat, missed: nat -> nat)
    requires k >= 1 && r < Pow2(k - 1) < n <= large && Misses(missed, k, n, r, large)
    ensures var m, t := large * (large + 1), n - Pow2(k - 1);
            m > 0 && t * Pow2(k) <= m && Counts(missed, m, 0, t * Pow2(k))
  {
    var m, t := large * (large + 1), n - Pow2(k - 1);
    SmoothedModulus(large);
    IntervalFits(n, Pow2(k - 1), large);
    var hi := t * Pow2(k);
    forall s: nat ensures CountsAt(missed, m, 0, hi, s) {
      ShrInterval(s % m, k, t);
      assert MissesAt(missed, k, n, r, large, s);
    }
  }

  /** The asterisk bits that do not lead to r. */
  ghost predicate Misses(missed: nat -> nat, k: nat, n: nat, r: nat, large: nat)
    requires k >= 1 && large > 0
  {
    forall s: nat :: MissesAt(missed, k, n, r, large, s)
  }

  ghost predicate MissesAt(missed: nat -> nat, k: nat, n: nat, r: nat, large: nat, s: nat)
    requires k >= 1 && large > 0
  {
    missed(s) == if Lands(k, n, r, large, s) then 0 else 1
  }

  lemma MakeMissed(k: nat, n: nat, r: nat, large: nat, total: nat) returns (missed: nat -> nat)
    requires k >= 1 && large > 0
    ensures Misses(missed, k, n, r, large)
    ensures Sum(total, missed) + Sum(total, Landing(k, n, r, large)) == total
  {
    missed := (s: nat) => if Lands(k, n, r, large, s) then 0 else 1;
    SumAdd(total, Constant(1), missed, Landing(k, n, r, large));
    SumConstant(total, Constant(1), 1);
  }

  lemma UpperNear(bits: nat, k: nat, n: nat, r: nat, i: nat)
    requires k >= 1 && Pow2(k - 1) <= r < n
    ensures NearAt(Landed(bits, k, n, r), n, Pow2(bits), Pow2(k), i)
  {
    var large, j := n + i, r - Pow2(k - 1);
    UpperCounts(k, n, r, large);
    ResiduesAreEven(Landing(k, n, r, large), Pow2(bits), large * (large + 1), j * Pow2(k), (j + 1) * Pow2(k));
    assert (j + 1) * Pow2(k) - j * Pow2(k) == Pow2(k);
  }

  /** c holds the numbers of asterisk bits that do not lead to r, by the large result. */
  ghost predicate MissedAt(c: nat -> nat, bits: nat, k: nat, n: nat, r: nat, i: nat)
    requires k >= 1 && n > 0
  {
    c(i) + Landed(bits, k, n, r)(i) == Pow2(bits)
  }

  lemma LandedAtMost(bits: nat, k: nat, n: nat, r: nat, i: nat)
    requires k >= 1 && n > 0
    ensures Landed(bits, k, n, r)(i) <= Pow2(bits)
  {
    var missed := MakeMissed(k, n, r, n + i, Pow2(bits));
  }

  lemma LowerNear(c: nat -> nat, bits: nat, k: nat, n: nat, r: nat, i: nat, h: nat)
    requires k >= 1 && r < Pow2(k - 1) < n && MissedAt(c, bits, k, n, r, i) && h == (n - Pow2(k - 1)) * Pow2(k)
    ensures NearAt(c, n, Pow2(bits), h, i)
  {
    var missed := MissedBy(c, bits, k, n, r, i);
    MissedNear(c, missed, Pow2(bits), k, n, r, i, h);
  }

  lemma MissedBy(c: nat -> nat, bits: nat, k: nat, n: nat, r: nat, i: nat) returns (missed: nat -> nat)
    requires k >= 1 && n > 0 && MissedAt(c, bits, k, n, r, i)
    ensures Misses(missed, k, n, r, n + i) && c(i) == Sum(Pow2(bits), missed)
  {
    missed := MakeMissed(k, n, r, n + i, Pow2(bits));
  }

  lemma MissedNear(c: nat -> nat, missed: nat -> nat, total: nat, k: nat, n: nat, r: nat, i: nat, h: nat)
    requires k >= 1 && r < Pow2(k - 1) < n && Misses(missed, k, n, r, n + i) && h == (n - Pow2(k - 1)) * Pow2(k)
    requires c(i) == Sum(total, missed)
    ensures NearAt(c, n, total, h, i)
  {
    LowerCounts(k, n, r, n + i, missed);
    ResiduesAreEven(missed, total, (n + i) * (n + i + 1), 0, h);
  }

  lemma MakeMissedCounts(bits: nat, k: nat, n: nat, r: nat, m: nat) returns (c: nat -> nat)
    requires k >= 1 && n > 0
    ensures forall i: nat :: MissedAt(c, bits, k, n, r, i)
    ensures Sum(m, c) + Sum(m, Landed(bits, k, n, r)) == Pow2(bits) * m
  {
    forall i: nat ensures Landed(bits, k, n, r)(i) <= Pow2(bits) { LandedAtMost(bits, k, n, r, i); }
    c := Complement(Pow2(bits), Landed(bits, k, n, r));
    SumComplement(m, Pow2(bits), Landed(bits, k, n, r), c);
  }

  ghost function Complement(total: nat, f: nat -> nat): nat -> nat {
    (i: nat) => if f(i) <= total then total - f(i) else 0
  }

  lemma SumComplement(m: nat, total: nat, f: nat -> nat, c: nat -> nat)
    requires forall i: nat :: i < m ==> c(i) + f(i) == total
    ensures Sum(m, c) + Sum(m, f) == total * m
  {
    SumAdd(m, Constant(total), c, f);
    SumConstant(m, Constant(total), total);
  }

  // ---------------------------------------------------------------- shares

  /** Dividing the telescoped bound by p. */
  lemma DivideBound(n: nat, p: nat, s: nat, x: nat, b: nat)
    requires p > 0 && Abs((n * p) * s - x * p) <= b * p
    ensures Abs(n * s - x) <= b
  {
    var d := n * s - x;
    assert (n * p) * s - x * p == d * p;
    if d > b { MulLe(b + 1, d, p); }
    if d < 0 - b { MulLe(d, 0 - b - 1, p); }
  }

  /** The sum of what lands in a bucket of the upper half. */
  lemma UpperLanded(bits: nat, k: nat, n: nat, r: nat)
    requires k >= 1 && Pow2(k - 1) <= r < n <= Pow2(k)
    ensures var i := Pow2(k) - n; Abs(n * Sum(i, Landed(bits, k, n, r)) - Pow2(bits) * i) <= (n * i) * Pow2(k)
  {
    var i, p, big := Pow2(k) - n, Pow2(k), Pow2(bits);
    var c := Landed(bits, k, n, r);
    forall j: nat | j < i ensures NearAt(c, n, big, p, j) { UpperNear(bits, k, n, r, j); }
    Telescoped(c, n, big, p, i);
    UpperAlgebra(n, i, p, big, Sum(i, c));
  }

  lemma UpperAlgebra(n: nat, i: nat, p: nat, big: nat, s: nat)
    requires p > 0 && Abs((n * p) * s - (big * p) * i) <= ((n * p) * i) * p
    ensures Abs(n * s - big * i) <= (n * i) * p
  {
    MoveLast(big, p, i);
    MoveLast(n, p, i);
    DivideBound(n, p, s, big * i, (n * i) * p);
  }

  lemma MoveLast(x: nat, p: nat, i: nat)
    ensures (x * p) * i == (x * i) * p
  {
  }

  /** The sum of what does not land in a bucket of the lower half. */
  lemma LowerMissed(c: nat -> nat, bits: nat, k: nat, n: nat, r: nat)
    requires k >= 1 && r < Pow2(k - 1) < n <= Pow2(k) && forall i: nat :: MissedAt(c, bits, k, n, r, i)
    ensures var i, t := Pow2(k) - n, n - Pow2(k - 1);
            Abs(n * Sum(i, c) - (Pow2(bits) * t) * i) <= (n * i) * (t * Pow2(k))
  {
    var i, t, p, big := Pow2(k) - n, n - Pow2(k - 1), Pow2(k), Pow2(bits);
    var h := t * p;
    forall j: nat | j < i ensures NearAt(c, n, big, h, j) {
      assert MissedAt(c, bits, k, n, r, j);
      LowerNear(c, bits, k, n, r, j, h);
    }
    Telescoped(c, n, big, h, i);
    LowerAlgebra(n, i, p, big, Sum(i, c), t);
  }

  lemma LowerAlgebra(n: nat, i: nat, p: nat, big: nat, s: nat, t: nat)
    requires p > 0 && Abs((n * p) * s - (big * (t * p)) * i) <= ((n * p) * i) * (t * p)
    ensures Abs(n * s - (big * t) * i) <= (n * i) * (t * p)
  {
    MulAssociative(big, t, p);
    MoveLast(big * t, p, i);
    MoveLast(n, p, i);
    MoveLast(n * i, p, t * p);
    DivideBound(n, p, s, (big * t) * i, (n * i) * (t * p));
  }

  /** The powers of two of one octave. */
  lemma OctavePowers(width: nat, k: nat)
    requires 1 <= k < width <= INT_BITS
    ensures var h, big := Pow2(k - 1), Pow2(AsteriskBits(width, k));
            && (h * Unit(width, k)) * big == Pow2(4 * width - k)
            && (h * Unit(width, k)) * Pow2(k) == Pow2(4 * width - AsteriskBits(width, k))
            && Pow2(4 * width - k) * Pow2(k) == Pow2(4 * width)
  {
    var bits := AsteriskBits(width, k);
    var u := 4 * width - 3 * k + 2 - bits + (k - 1);
    Pow2Add(k - 1, u);
    Pow2Add(k - 1 + u, bits);
    Pow2Add(k - 1 + u, k);
    Pow2Add(4 * width - k, k);
  }

  /** For a bucket of the upper half: n * (own + s * f) against own * p. */
  lemma UpperShareAlgebra(n: nat, i: nat, p: nat, own: nat, f: nat, big: nat, s: nat, share: nat)
    requires n + i == p && f * big == own && share == own + s * f && Abs(n * s - big * i) <= (n * i) * p
    ensures Abs(n * share - own * p) <= (n * i) * (f * p)
  {
    UpperShareIdentity(n, i, p, own, f, big, s, share);
    ScaledBound(f, n * s - big * i, (n * i) * p);
    MulSwap(f, n * i, p);
  }

  lemma UpperShareIdentity(n: nat, i: nat, p: nat, own: nat, f: nat, big: nat, s: nat, share: nat)
    requires n + i == p && f * big == own && share == own + s * f
    ensures n * share - own * p == f * (n * s - big * i)
  {
    assert n * (own + s * f) == n * own + f * (n * s);
    assert own * (n + i) == n * own + f * (big * i);
    Distribute(f, n * s, big * i);
  }

  lemma ScaledBound(f: nat, d: int, b: nat)
    requires Abs(d) <= b
    ensures Abs(f * d) <= f * b
  {
    MulLe(0 - b, d, f);
    MulLe(d, b, f);
    assert f * (0 - b) == 0 - f * b;
  }

  /** For a bucket of the lower half, with c + s == big * i. */
  lemma LowerShareAlgebra(n: nat, i: nat, p: nat, h: nat, t: nat, own: nat, u: nat, big: nat, s: nat, c: nat, share: nat)
    requires n + i == p && n == h + t && t <= h && (h * u) * big == own && share == own + s * u && c + s == big * i
    requires Abs(n * c - (big * t) * i) <= (n * i) * (t * p)
    ensures Abs(n * share - own * p) <= (n * i) * ((h * u) * p)
  {
    var d := (big * t) * i - n * c;
    LowerShareIdentity(n, i, p, h, t, own, u, big, s, c, share);
    ScaledBound(u, d, (n * i) * (t * p));
    LowerShareBound(n * i, t, h, p, u);
  }

  lemma LowerShareBound(x: nat, t: nat, h: nat, p: nat, u: nat)
    requires t <= h
    ensures u * (x * (t * p)) <= x * ((h * u) * p)
  {
    MulLe(t, h, p);
    MulLe(t * p, h * p, x);
    MulLe(x * (t * p), x * (h * p), u);
    assert u * (x * (h * p)) == x * ((h * u) * p);
  }

  lemma LowerShareIdentity(n: nat, i: nat, p: nat, h: nat, t: nat, own: nat, u: nat, big: nat, s: nat, c: nat, share: nat)
    requires n + i == p && n == h + t && (h * u) * big == own && share == own + s * u && c + s == big * i
    ensures n * share - own * p == u * ((big * t) * i - n * c)
  {
    assert n * (own + s * u) == n * own + u * (n * s);
    assert own * (n + i) == n * own + own * i;
    assert own * i == u * (h * (big * i));
    assert n * s == n * (big * i) - n * c by { Distribute(n, big * i, c); }
    assert n * (big * i) == h * (big * i) + (big * t) * i;
    Distribute(u, n * s, h * (big * i));
  }

  lemma ProductIsNatural(x: nat, y: nat, z: nat)
    ensures 0 <= (x * y) * z
  {
    MulLe(0, x, y);
    MulLe(0, x * y, z);
  }

  /** The most by which n times a share can miss the number of all hashes. */
  ghost function Error(width: nat, k: nat, n: nat): nat
    requires 1 <= k < width <= INT_BITS && n <= Pow2(k)
  {
    ProductIsNatural(n, Pow2(k) - n, Pow2(4 * width - AsteriskBits(width, k)));
    (n * (Pow2(k) - n)) * Pow2(4 * width - AsteriskBits(width, k))
  }

  /** For every number of buckets and every bucket, the share is even up to that error; it is zero for a power of two. */
  lemma NearlyEven(width: nat, k: nat, n: nat, r: nat)
    requires InOctave(n, k) && k < width <= INT_BITS && r < n <= Pow2(width - 1)
    ensures Even(n, Share(width, n, r), Pow2(4 * width), Error(width, k, n))
  {
    ShareFormula(width, k, n, r);
    EvenShare(width, k, n, r, Share(width, n, r));
  }

  /** n times the share is the total, up to the error. */
  ghost predicate Even(n: nat, share: nat, total: int, error: int) {
    Abs(n * share - total) <= error
  }

  lemma EvenShare(width: nat, k: nat, n: nat, r: nat, share: nat)
    requires InOctave(n, k) && k < width <= INT_BITS && r < n
    requires share == Pow2(4 * width - k)
                      + Mul(Sum(Pow2(k) - n, Landed(AsteriskBits(width, k), k, n, r)), Factor(width, k, r))
    ensures Even(n, share, Pow2(4 * width), Error(width, k, n))
  {
    if r < Pow2(k - 1) { LowerShare(width, k, n, r, share); } else { UpperShare(width, k, n, r, share); }
  }

  lemma UpperShare(width: nat, k: nat, n: nat, r: nat, share: nat)
    requires InOctave(n, k) && k < width <= INT_BITS && Pow2(k - 1) <= r < n
    requires share == Pow2(4 * width - k)
                      + Mul(Sum(Pow2(k) - n, Landed(AsteriskBits(width, k), k, n, r)), Factor(width, k, r))
    ensures Even(n, share, Pow2(4 * width), Error(width, k, n))
  {
    var bits := AsteriskBits(width, k);
    var s, f := Sum(Pow2(k) - n, Landed(bits, k, n, r)), Pow2(k - 1) * Unit(width, k);
    UpperLanded(bits, k, n, r);
    OctavePowers(width, k);
    MulIsProduct(s, f);
    UpperShareAlgebra(n, Pow2(k) - n, Pow2(k), Pow2(4 * width - k), f, Pow2(bits), s, share);
  }

  lemma LowerShare(width: nat, k: nat, n: nat, r: nat, share: nat)
    requires InOctave(n, k) && k < width <= INT_BITS && r < Pow2(k - 1)
    requires share == Pow2(4 * width - k)
                      + Mul(Sum(Pow2(k) - n, Landed(AsteriskBits(width, k), k, n, r)), Factor(width, k, r))
    ensures Even(n, share, Pow2(4 * width), Error(width, k, n))
  {
    var bits, i := AsteriskBits(width, k), Pow2(k) - n;
    var c := MakeMissedCounts(bits, k, n, r, i);
    var s := Sum(i, Landed(bits, k, n, r));
    LowerMissed(c, bits, k, n, r);
    OctavePowers(width, k);
    MulIsProduct(s, Unit(width, k));
    LowerShareAlgebra(n, i, Pow2(k), Pow2(k - 1), n - Pow2(k - 1), Pow2(4 * width - k), Unit(width, k), Pow2(bits), s,
                      Sum(i, c), share);
  }
}
