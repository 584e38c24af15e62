/** The bits that the large scheme of consistent hashing does not look at, as one number. */
module ConsistentAsterisk {
  import opened Bits
  import opened ConsistentHashing
  import opened ConsistentFairness

  function Min(x: nat, y: nat): nat {
    if x <= y then x else y
  }

  /** How many asterisk bits there are: all that the large scheme leaves, but what is shifted out of 32 bits in the
      first step and of 64 bits later is lost. */
  function AsteriskBits(width: nat, k: nat): (bits: nat)
    requires 1 <= k <= width <= INT_BITS
    ensures k <= bits <= 4 * width - 3 * k + 2
  {
    var s := width - k + 1;
    Min(Min(INT_BITS + s + s, WORD_BITS), 4 * width - 3 * k + 2)
  }

  /** For the two overloads. */
  lemma AsteriskBitsOfOverloads(k: nat)
    ensures 1 <= k <= 16 ==> AsteriskBits(16, k) == 66 - 3 * k
    ensures 1 <= k <= 32 ==> AsteriskBits(32, k) == if k <= 17 then 64 else 98 - 2 * k
  {
  }

  // ---------------------------------------------------------------- shifting in

  lemma ShiftInMod(x: nat, r: nat, c: nat, low: nat)
    requires r > 0 && low < c
    ensures r * c > 0 && (x * c + low) % (r * c) == (x % r) * c + low
  {
    MulLe(1, c, r);
    var q, z := x / r, x % r;
    assert x == q * r + z;
    assert x * c == q * (r * c) + z * c by { MulAssociative(q, r, c); }
    MulLe(z + 1, r, c);
    assert (z + 1) * c == z * c + c;
    DivModUnique(x * c + low, r * c, q, z * c + low);
  }

  lemma JoinCut(s: nat, t: nat, hi: nat, lo: nat)
    requires lo < Pow2(s)
    ensures Shl(Cut(hi, t), s) + lo == Cut(Shl(hi, s) + lo, t + s)
  {
    Pow2Add(t, s);
    ShlIsMul(hi, s);
    CutIsMod(hi, t);
    ShlIsMul(Cut(hi, t), s);
    CutIsMod(Shl(hi, s) + lo, t + s);
    ShiftInMod(hi, Pow2(t), Pow2(s), lo);
  }

  /** Shifting a word of u bits up and or-ing bits into the free places. */
  lemma ShiftIn(x: nat, s: nat, low: nat, u: nat)
    requires s <= u && low < Pow2(s)
    ensures Or(Cut(Shl(x, s), u), low) == Cut(Shl(x, s) + low, u)
  {
    JoinCut(s, u - s, x, 0);
    JoinCut(s, u - s, x, low);
    ShlIsMul(Cut(x, u - s), s);
    OrDisjoint(Cut(x, u - s), low, s);
  }

  lemma ReduceShl(x: nat, s: nat, b: nat, u: nat)
    ensures Cut(Shl(Cut(x, u), s) + b, u) == Cut(Shl(x, s) + b, u)
  {
    CutIsMod(x, u);
    ShlIsMul(Cut(x, u), s);
    ShlIsMul(x, s);
    CutIsMod(Shl(Cut(x, u), s) + b, u);
    CutIsMod(Shl(x, s) + b, u);
    ReduceFactor(x, Pow2(s), b, Pow2(u));
  }

  lemma ReduceFactor(x: nat, a: nat, b: nat, m: nat)
    requires m > 0
    ensures ((x % m) * a + b) % m == (x * a + b) % m
  {
    ModReduce(a, x, b, m);
    MulCommutes(a, x % m);
    MulCommutes(a, x);
  }

  lemma MulCommutes(x: nat, y: nat)
    ensures x * y == y * x
  {
  }

  lemma CutTwice(x: nat, u: nat, v: nat)
    ensures Cut(Cut(x, u), v) == Cut(x, Min(u, v))
  {
    if v <= u {
      CutCut(x, u, v);
    } else {
      CutIsMod(x, u);
      Pow2Monotone(u, v);
      CutSmall(Cut(x, u), v);
    }
  }

  lemma CutSmall(x: nat, u: nat)
    requires x < Pow2(u)
    ensures Cut(x, u) == x
  {
    CutIsMod(x, u);
    DivModUnique(x, Pow2(u), 0, x);
  }

  // ---------------------------------------------------------------- the free bits

  /** What is left of the hash: e, then s bits of b, then s bits of a. */
  function FreeBits(s: nat, e: nat, bHigh: nat, aHigh: nat): nat {
    Shl(Shl(e, s) + bHigh, s) + aHigh
  }

  /** Cutting e first does not change what is left of the whole. */
  lemma CutFree(s: nat, t: nat, e: nat, bHigh: nat, aHigh: nat)
    requires bHigh < Pow2(s) && aHigh < Pow2(s)
    ensures FreeBits(s, Cut(e, t), bHigh, aHigh) == Cut(FreeBits(s, e, bHigh, aHigh), t + s + s)
  {
    JoinCut(s, t, e, bHigh);
    JoinCut(s, t + s, Shl(e, s) + bHigh, aHigh);
  }

  /** Two steps of packing in words of u bits. */
  lemma PackedInWords(s: nat, u: nat, e: nat, bHigh: nat, aHigh: nat)
    requires s <= u && bHigh < Pow2(s) && aHigh < Pow2(s)
    ensures Or(Cut(Shl(Or(Cut(Shl(e, s), u), bHigh), s), u), aHigh) == Cut(FreeBits(s, e, bHigh, aHigh), u)
  {
    ShiftIn(e, s, bHigh, u);
    var res := Shl(e, s) + bHigh;
    ShiftIn(Cut(res, u), s, aHigh, u);
    ReduceShl(res, s, aHigh, u);
  }

  lemma FreeBitsBound(s: nat, t: nat, e: nat, b: nat, a: nat)
    requires e < Pow2(t) && b < Pow2(s) && a < Pow2(s)
    ensures FreeBits(s, e, b, a) < Pow2(t + s + s)
  {
    CutFree(s, t, e, b, a);
    CutSmall(e, t);
    CutIsMod(FreeBits(s, e, b, a), t + s + s);
  }

  // ---------------------------------------------------------------- the words

  lemma ShrBound(x: nat, s: nat, n: nat)
    requires s <= n && x < Pow2(n)
    ensures Shr(x, s) < Pow2(n - s)
  {
    ShrIsDiv(x, s);
    Pow2Add(s, n - s);
    QuotientBelow(x, Pow2(s), Pow2(n - s));
  }

  lemma QuotientBelow(v: nat, m: nat, n: nat)
    requires m > 0 && v < m * n
    ensures v / m < n
  {
    if v / m >= n { MulLe(n, v / m, m); }
  }

  /** Upper bits of a low part join the upper bits of the high part. */
  lemma ShrJoin(hi: nat, w: nat, k: nat)
    requires k <= w
    ensures Shl(Shr(hi, w), w - k) + Shr(Cut(hi, w), k) == Shr(hi, k)
    ensures Shr(Cut(hi, w), k) < Pow2(w - k)
  {
    CutIsMod(hi, w);
    ShrBound(Cut(hi, w), k, w);
    ShrIsDiv(hi, w);
    ShrIsDiv(hi, k);
    ShrIsDiv(Cut(hi, w), k);
    ShlIsMul(Shr(hi, w), w - k);
    Pow2Add(w - k, k);
    HighPart(hi, Pow2(w - k), Pow2(k));
  }

  lemma HighPart(hi: nat, r: nat, p: nat)
    requires r > 0 && p > 0
    ensures r * p > 0 && (hi / (r * p)) * r + (hi % (r * p)) / p == hi / p
  {
    MulLe(1, p, r);
    var d, c := hi / (r * p), hi % (r * p);
    var h, l := c / p, c % p;
    assert c == h * p + l;
    assert (d * r + h) * p == d * (r * p) + h * p by { MulAssociative(d, r, p); }
    DivModUnique(hi, p, d * r + h, l);
  }

  /** The free bits of a hash. */
  function Free(width: nat, k: nat, x: nat): nat
    requires 1 <= k <= width
  {
    FreeBits(width - k + 1, Shr(Shr(x, 2 * width), k), Shr(WordB(width, x), k - 1), Shr(WordA(width, x), k - 1))
  }

  function AsteriskOf(width: nat, x: nat, k: nat): nat
    requires 1 <= k <= width
  {
    GetAsteriskBits(width, WordA(width, x), WordB(width, x), WordC(width, x), WordD(width, x), k)
  }

  lemma WordBounds(width: nat, k: nat, x: nat)
    requires 1 <= k <= width
    ensures Shr(WordA(width, x), k - 1) < Pow2(width - k + 1) && Shr(WordB(width, x), k - 1) < Pow2(width - k + 1)
  {
    CutIsMod(x, 2 * width);
    CutIsMod(Cut(x, 2 * width), width);
    ShrBound(Cut(x, 2 * width), width, 2 * width);
    ShrBound(WordA(width, x), k - 1, width);
    ShrBound(WordB(width, x), k - 1, width);
  }

  /** The upper half, packed as a 32-bit integer. */
  lemma UpperHalfPacked(hi: nat, width: nat, k: nat, t: nat)
    requires 1 <= k <= width <= t
    ensures Or(Cut(Shl(Shr(hi, width), width - k), t), Shr(Cut(hi, width), k)) == Cut(Shr(hi, k), t)
  {
    ShrJoin(hi, width, k);
    ShiftIn(Shr(hi, width), width - k, Shr(Cut(hi, width), k), t);
  }

  lemma AsteriskSteps(width: nat, x: nat, k: nat, e: nat)
    requires 1 <= k <= width <= INT_BITS && e == Shr(Shr(x, 2 * width), k)
    ensures AsteriskOf(width, x, k)
            == Cut(FreeBits(width - k + 1, Cut(e, INT_BITS), Shr(WordB(width, x), k - 1), Shr(WordA(width, x), k - 1)), WORD_BITS)
  {
    UpperHalfPacked(Shr(x, 2 * width), width, k, INT_BITS);
    WordBounds(width, k, x);
    PackedInWords(width - k + 1, WORD_BITS, Cut(e, INT_BITS), Shr(WordB(width, x), k - 1), Shr(WordA(width, x), k - 1));
  }

  lemma FreeBound(width: nat, k: nat, x: nat)
    requires 1 <= k <= width && x < Pow2(4 * width)
    ensures Free(width, k, x) < Pow2(4 * width - 3 * k + 2)
  {
    WordBounds(width, k, x);
    ShrBound(x, 2 * width, 4 * width);
    ShrBound(Shr(x, 2 * width), k, 2 * width);
    FreeBitsBound(width - k + 1, 2 * width - k, Shr(Shr(x, 2 * width), k), Shr(WordB(width, x), k - 1),
                  Shr(WordA(width, x), k - 1));
  }

  /** The asterisk bits are the low bits of the free bits. */
  lemma AsteriskIsFree(width: nat, x: nat, k: nat)
    requires 1 <= k <= width <= INT_BITS && x < Pow2(4 * width)
    ensures AsteriskOf(width, x, k) == Cut(Free(width, k, x), AsteriskBits(width, k))
  {
    var s, e := width - k + 1, Shr(Shr(x, 2 * width), k);
    WordBounds(width, k, x);
    AsteriskSteps(width, x, k, e);
    CutFree(s, INT_BITS, e, Shr(WordB(width, x), k - 1), Shr(WordA(width, x), k - 1));
    CutTwice(Free(width, k, x), INT_BITS + s + s, WORD_BITS);
    FreeBound(width, k, x);
    CutSmall(Free(width, k, x), 4 * width - 3 * k + 2);
    CutTwice(Free(width, k, x), 4 * width - 3 * k + 2, Min(INT_BITS + s + s, WORD_BITS));
  }

  /** The asterisk bits fit the stated number of bits. */
  lemma AsteriskBound(width: nat, x: nat, k: nat)
    requires 1 <= k <= width <= INT_BITS && x < Pow2(4 * width)
    ensures AsteriskOf(width, x, k) < Pow2(AsteriskBits(width, k))
  {
    AsteriskIsFree(width, x, k);
    CutIsMod(Free(width, k, x), AsteriskBits(width, k));
  }
}
