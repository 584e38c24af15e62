/** Decimal text of 128- and 256-bit integers: blocks of two digits are split off until the rest fits the next
    smaller type. */
module ItoaWide {
  import opened Bits
  import opened Decimal
  import opened WideLimbs
  import opened WideArith
  import opened WideDivide
  import Itoa

  const LARGE_DIVISOR: nat := 1_000_000_000_000_000_000
  const BLOCKS: nat := 9

  // ---------------------------------------------------------------- blocks of two digits

  function Pow100(n: nat): (p: nat)
    ensures p >= 1
  {
    if n == 0 then 1 else 100 * Pow100(n - 1)
  }

  /** The number held by entries i to j - 1, least significant first. */
  ghost function BlockValue(s: seq<nat>, i: nat, j: nat): nat
    requires i <= j <= |s|
    decreases j - i
  {
    if i == j then 0 else s[i] + 100 * BlockValue(s, i + 1, j)
  }

  /** Their text, two digits each. */
  ghost function BlockText(s: seq<nat>, i: nat, j: nat): (t: string)
    requires i <= j <= |s|
    ensures |t| == 2 * (j - i)
  {
    Padded(BlockValue(s, i, j), 2 * (j - i))
  }

  ghost predicate AreBlocks(s: seq<nat>) {
    forall k :: 0 <= k < |s| ==> s[k] < 100
  }

  lemma {:induction false} Pow100IsPow10(n: nat)
    ensures Pow100(n) == Pow10(2 * n)
  {
    if n > 0 {
      Pow100IsPow10(n - 1);
      assert Pow10(2 * n) == 10 * Pow10(2 * n - 1) == 100 * Pow10(2 * n - 2);
    }
  }

  lemma {:induction false} BlockBound(s: seq<nat>, i: nat, j: nat)
    requires i <= j <= |s| && AreBlocks(s)
    ensures BlockValue(s, i, j) < Pow100(j - i)
    decreases j - i
  {
    if i < j { BlockBound(s, i + 1, j); }
  }

  /** The text is that of the more significant entries, then the two digits of entry i. */
  lemma BlockTextStep(s: seq<nat>, i: nat, j: nat)
    requires i < j <= |s| && AreBlocks(s)
    ensures BlockText(s, i, j) == BlockText(s, i + 1, j) + Padded(s[i], 2)
  {
    BlockJoin(BlockValue(s, i + 1, j), 2 * (j - i - 1), s[i]);
  }

  lemma BlockJoin(q: nat, w: nat, r: nat)
    requires r < 100
    ensures Padded(q, w) + Padded(r, 2) == Padded(r + 100 * q, w + 2)
  {
    assert Pow10(2) == 100;
    PaddedJoin(q, w, r, 2);
  }

  lemma {:induction false} BlockSplit(s: seq<nat>, i: nat, j: nat, k: nat)
    requires i <= j <= k <= |s|
    ensures BlockValue(s, i, k) == BlockValue(s, i, j) + Pow100(j - i) * BlockValue(s, j, k)
    decreases j - i
  {
    if i < j {
      BlockSplit(s, i + 1, j, k);
      MulAssociative(100, Pow100(j - i - 1), BlockValue(s, j, k));
    }
  }

  lemma {:induction false} BlockZero(s: seq<nat>, i: nat, j: nat)
    requires i <= j <= |s| && forall k :: i <= k < j ==> s[k] == 0
    ensures BlockValue(s, i, j) == 0
    decreases j - i
  {
    if i < j { BlockZero(s, i + 1, j); }
  }

  lemma {:induction false} BlockSame(s: seq<nat>, t: seq<nat>, i: nat, j: nat)
    requires i <= j <= |s| && j <= |t| && forall k :: i <= k < j ==> s[k] == t[k]
    ensures BlockValue(s, i, j) == BlockValue(t, i, j)
    decreases j - i
  {
    if i < j { BlockSame(s, t, i + 1, j); }
  }

  /** Entries of the buffer from `from` on are still zero. */
  ghost predicate ZeroFrom(s: seq<nat>, from: nat) {
    forall k :: from <= k < |s| ==> s[k] == 0
  }

  ghost predicate Filling(now: seq<nat>, was: seq<nat>, start: nat, pos: nat, rest: nat, remainder: nat)
    requires start <= pos <= |now| == |was|
  {
    && AreBlocks(now) && ZeroFrom(now, pos) && now[..start] == was[..start]
    && BlockValue(now, start, pos) + Pow100(pos - start) * rest == remainder
  }

  /** The blocks of a remainder below 100^count go into `count` entries. The loop stops early at a zero rest: the
      entries not reached are zero already. */
  method FillBlocks(two: array<nat>, start: nat, count: nat, remainder: nat)
    requires start + count <= two.Length && remainder < Pow100(count)
    requires AreBlocks(two[..]) && ZeroFrom(two[..], start)
    modifies two
    ensures AreBlocks(two[..]) && ZeroFrom(two[..], start + count)
    ensures two[..start] == old(two[..start]) && BlockValue(two[..], start, start + count) == remainder
  {
    var rest: nat, pos := remainder, start;
    while rest != 0
      invariant start <= pos <= start + count && rest < Pow100(start + count - pos)
      invariant Filling(two[..], old(two[..]), start, pos, rest, remainder)
      decreases rest
    {
      assert pos < start + count;
      FillStep(two[..], old(two[..]), start, pos, rest, remainder);
      two[pos] := rest % 100;
      pos := pos + 1;
      rest := rest / 100;
    }
    BlockSplit(two[..], start, pos, start + count);
    BlockZero(two[..], pos, start + count);
  }

  lemma FillStep(now: seq<nat>, was: seq<nat>, start: nat, pos: nat, rest: nat, remainder: nat)
    requires start <= pos < |now| == |was| && Filling(now, was, start, pos, rest, remainder)
    ensures Filling(now[pos := rest % 100], was, start, pos + 1, rest / 100, remainder)
  {
    BlockStep(now, now[pos := rest % 100], start, pos, rest);
  }

  lemma BlockStep(before: seq<nat>, after: seq<nat>, start: nat, pos: nat, rest: nat)
    requires start <= pos < |before| == |after| && after == before[pos := rest % 100]
    ensures BlockValue(after, start, pos + 1) + Pow100(pos + 1 - start) * (rest / 100)
            == BlockValue(before, start, pos) + Pow100(pos - start) * rest
  {
    BlockSplit(after, start, pos, pos + 1);
    BlockSame(before, after, start, pos);
    assert BlockValue(after, pos, pos + 1) == rest % 100;
    BlockAlgebra(Pow100(pos - start), rest % 100, rest / 100, rest);
  }

  lemma BlockAlgebra(p: nat, r: nat, q: nat, rest: nat)
    requires rest == 100 * q + r
    ensures p * r + (100 * p) * q == p * rest
  {
  }

  // ---------------------------------------------------------------- taking a number apart

  lemma DivisorIsPow100()
    ensures LARGE_DIVISOR == Pow100(BLOCKS)
  {
  }

  lemma {:induction false} Pow100Add(m: nat, n: nat)
    ensures Pow100(m + n) == Pow100(m) * Pow100(n)
  {
    if m > 0 {
      Pow100Add(m - 1, n);
      MulAssociative(100, Pow100(m - 1), Pow100(n));
    }
  }

  /** What is left above the limit together with the blocks taken is the number. */
  ghost predicate Taken(two: seq<nat>, x: nat, current: nat, x0: nat)
    requires current <= |two|
  {
    AreBlocks(two) && ZeroFrom(two, current) && x * Pow100(current) + BlockValue(two, 0, current) == x0
  }

  lemma TakeStep(before: seq<nat>, after: seq<nat>, x: nat, current: nat, x0: nat)
    requires current + BLOCKS <= |before| == |after| && Taken(before, x, current, x0)
    requires AreBlocks(after) && ZeroFrom(after, current + BLOCKS) && after[..current] == before[..current]
    requires BlockValue(after, current, current + BLOCKS) == x % LARGE_DIVISOR
    ensures Taken(after, x / LARGE_DIVISOR, current + BLOCKS, x0)
  {
    BlockSplit(after, 0, current, current + BLOCKS);
    BlockSame(before, after, 0, current);
    Pow100Add(BLOCKS, current);
    DivisorIsPow100();
    TakeAlgebra(x, x / LARGE_DIVISOR, x % LARGE_DIVISOR, Pow100(current));
  }

  lemma TakeAlgebra(x: nat, q: nat, r: nat, p: nat)
    requires x == q * LARGE_DIVISOR + r
    ensures q * (LARGE_DIVISOR * p) + p * r == x * p
  {
  }

  /** Blocks are taken only while the number exceeds the limit, so the buffer is never overrun. */
  lemma RoomForBlocks(two: seq<nat>, x: nat, current: nat, x0: nat, limit: nat, rounds: nat, k: nat)
    requires current == BLOCKS * k && k <= rounds && BLOCKS * rounds <= |two| && Taken(two, x, current, x0)
    requires x > limit && x0 < (limit + 1) * Pow100(BLOCKS * rounds)
    ensures k < rounds
  {
    if k == rounds { MulLe(limit + 1, x, Pow100(current)); }
  }

  /** The loop of both widths: `rounds` bounds the number of divisions. */
  method TakeBlocks(two: array<nat>, x0: nat, limit: nat, ghost rounds: nat) returns (x: nat, current: nat)
    requires BLOCKS * rounds <= two.Length && x0 < (limit + 1) * Pow100(BLOCKS * rounds) && limit >= LARGE_DIVISOR
    requires forall k :: 0 <= k < two.Length ==> two[k] == 0
    modifies two
    ensures current <= two.Length && Taken(two[..], x, current, x0) && x <= limit && (x0 > 0 ==> x > 0)
  {
    x, current := x0, 0;
    ghost var k: nat := 0;
    while x > limit
      invariant current == BLOCKS * k <= two.Length && k <= rounds && Taken(two[..], x, current, x0)
      invariant x0 > 0 ==> x > 0
      decreases x
    {
      RoomForBlocks(two[..], x, current, x0, limit, rounds, k);
      ghost var before := two[..];
      DivisorIsPow100();
      FillBlocks(two, current, BLOCKS, x % LARGE_DIVISOR);
      TakeStep(before, two[..], x, current, x0);
      x := x / LARGE_DIVISOR;
      current := current + BLOCKS;
      k := k + 1;
    }
  }

  // ---------------------------------------------------------------- writing

  method WriteBlocks(a: array<char>, p: nat, two: array<nat>, n: nat, ghost blocks: seq<nat>) returns (r: nat)
    requires a as object != two as object && two[..] == blocks && n <= |blocks| && AreBlocks(blocks)
    requires p + 2 * n <= a.Length
    modifies a
    ensures r == p + 2 * n && Itoa.Written(a[..], old(a[..]), p, BlockText(blocks, 0, n))
  {
    r := p;
    for i := 0 to n
      invariant r == p + 2 * i && two[..] == blocks
      invariant Itoa.Written(a[..], old(a[..]), p, BlockText(blocks, n - i, n))
    {
      ghost var mid, k := a[..], n - 1 - i;
      assert two[k] == blocks[k];
      r := Itoa.OutTwoDigits(a, r, two[n - 1 - i]);
      Itoa.WrittenTwice(a[..], mid, old(a[..]), p, BlockText(blocks, k + 1, n), Padded(blocks[k], 2));
      BlockTextStep(blocks, k, n);
    }
  }

  /** The rest followed by the blocks is the text of the whole. */
  lemma JoinedText(two: seq<nat>, x: nat, current: nat, x0: nat)
    requires current <= |two| && Taken(two, x, current, x0) && x > 0
    ensures DecimalText(x) + BlockText(two, 0, current) == DecimalText(x0)
  {
    BlockBound(two, 0, current);
    Pow100IsPow10(current);
    Itoa.TextJoin(x, BlockValue(two, 0, current), 2 * current);
  }

  /** All blocks above the limit in a new buffer; the text of the number is that of the rest and of the blocks. */
  method TakeAll(v: nat, limit: nat, size: nat, ghost rounds: nat)
    returns (two: array<nat>, rest: nat, current: nat, ghost text: string)
    requires v > 0 && BLOCKS * rounds <= size && v < (limit + 1) * Pow100(BLOCKS * rounds) && limit >= LARGE_DIVISOR
    ensures fresh(two) && current <= two.Length && AreBlocks(two[..]) && rest <= limit
    ensures text == BlockText(two[..], 0, current) && DecimalText(rest) + text == DecimalText(v)
  {
    two := new nat[size](_ => 0);
    rest, current := TakeBlocks(two, v, limit, rounds);
    JoinedText(two[..], rest, current, v);
    text := BlockText(two[..], 0, current);
  }

  method WriteUInt64(a: array<char>, p: nat, u: nat) returns (r: nat)
    requires u < BASE && p + |DecimalText(u)| <= a.Length
    modifies a
    ensures r == p + |DecimalText(u)| && Itoa.Written(a[..], old(a[..]), p, DecimalText(u))
  {
    assert Itoa.IsSize(8) && Itoa.TypeSize(8) == BASE;
    r := Itoa.Uitoa(a, p, 8, u);
  }

  method WriteUInt128(a: array<char>, p: nat, x: seq<Limb>) returns (r: nat)
    requires |x| == 2 && p + |DecimalText(Value(x))| <= a.Length
    modifies a
    ensures r == p + |DecimalText(Value(x))| && Itoa.Written(a[..], old(a[..]), p, DecimalText(Value(x)))
  {
    if x[1] == 0 {
      LowLimbOnly(x);
      r := WriteUInt64(a, p, x[0]);
      return;
    }
    ValueBound(x);
    HighLimb(x, 1);
    r := WriteBlocks128(a, p, Value(x));
  }

  method Take128(v: nat) returns (two: array<nat>, rest: nat, current: nat, ghost text: string)
    requires 0 < v < Modulus(2)
    ensures fresh(two) && current <= two.Length && AreBlocks(two[..]) && rest < BASE
    ensures text == BlockText(two[..], 0, current) && DecimalText(rest) + text == DecimalText(v)
  {
    Rounds128();
    two, rest, current, text := TakeAll(v, BASE - 1, 20, 2);
  }

  method WriteBlocks128(a: array<char>, p: nat, v: nat) returns (r: nat)
    requires 0 < v < Modulus(2) && p + |DecimalText(v)| <= a.Length
    modifies a
    ensures r == p + |DecimalText(v)| && Itoa.Written(a[..], old(a[..]), p, DecimalText(v))
  {
    var two, rest, current, text := Take128(v);
    ghost var blocks := two[..];
    r := WriteUInt64(a, p, rest);
    ghost var mid := a[..];
    r := WriteBlocks(a, r, two, current, blocks);
    Itoa.WrittenTwice(a[..], mid, old(a[..]), p, DecimalText(rest), text);
  }

  /** A nonzero limb makes the number positive. */
  lemma HighLimb(x: seq<Limb>, k: nat)
    requires k < |x| && x[k] != 0
    ensures Value(x) > 0
  {
    RangeSplit(x, 0, k, |x|);
    MulLe(1, Modulus(k), Range(x, k, |x|));
  }

  lemma LowLimbOnly(x: seq<Limb>)
    requires |x| == 2 && x[1] == 0
    ensures Value(x) == x[0]
  {
    assert Range(x, 1, 2) == 0;
  }

  lemma Rounds128()
    ensures Modulus(2) <= (BASE - 1 + 1) * Pow100(BLOCKS * 2)
  {
    DivisorIsPow100();
    Pow100Add(BLOCKS, BLOCKS);
    assert Modulus(2) == BASE * BASE;
  }

  lemma Rounds256()
    ensures Modulus(4) <= (Modulus(2) - 1 + 1) * Pow100(BLOCKS * 3) && Modulus(2) - 1 >= LARGE_DIVISOR
  {
    DivisorIsPow100();
    Pow100Add(BLOCKS, BLOCKS);
    Pow100Add(BLOCKS * 2, BLOCKS);
    assert Modulus(2) == BASE * BASE && Modulus(4) == BASE * BASE * BASE * BASE;
  }

  method WriteUInt256(a: array<char>, p: nat, x: seq<Limb>) returns (r: nat)
    requires |x| == 4 && p + |DecimalText(Value(x))| <= a.Length
    modifies a
    ensures r == p + |DecimalText(Value(x))| && Itoa.Written(a[..], old(a[..]), p, DecimalText(Value(x)))
  {
    if x[3] == 0 && x[2] == 0 {
      LowLimbsOnly(x);
      r := WriteUInt128(a, p, [x[0], x[1]]);
      return;
    }
    ValueBound(x);
    if x[3] != 0 { HighLimb(x, 3); } else { HighLimb(x, 2); }
    r := WriteBlocks256(a, p, Value(x));
  }

  method WriteBelow128(a: array<char>, p: nat, v: nat) returns (r: nat)
    requires v < Modulus(2) && p + |DecimalText(v)| <= a.Length
    modifies a
    ensures r == p + |DecimalText(v)| && Itoa.Written(a[..], old(a[..]), p, DecimalText(v))
  {
    var pending := LowHalf(v);
    r := WriteUInt128(a, p, pending);
  }

  method Take256(v: nat) returns (two: array<nat>, rest: nat, current: nat, ghost text: string)
    requires 0 < v < Modulus(4)
    ensures fresh(two) && current <= two.Length && AreBlocks(two[..]) && rest < Modulus(2)
    ensures text == BlockText(two[..], 0, current) && DecimalText(rest) + text == DecimalText(v)
  {
    Rounds256();
    two, rest, current, text := TakeAll(v, Modulus(2) - 1, 39, 3);
  }

  method WriteBlocks256(a: array<char>, p: nat, v: nat) returns (r: nat)
    requires 0 < v < Modulus(4) && p + |DecimalText(v)| <= a.Length
    modifies a
    ensures r == p + |DecimalText(v)| && Itoa.Written(a[..], old(a[..]), p, DecimalText(v))
  {
    var two, rest, current, text := Take256(v);
    ghost var blocks := two[..];
    r := WriteBelow128(a, p, rest);
    ghost var mid := a[..];
    r := WriteBlocks(a, r, two, current, blocks);
    Itoa.WrittenTwice(a[..], mid, old(a[..]), p, DecimalText(rest), text);
  }

  lemma LowLimbsOnly(x: seq<Limb>)
    requires |x| == 4 && x[3] == 0 && x[2] == 0
    ensures Value([x[0], x[1]]) == Value(x)
  {
    RangeSplit(x, 0, 2, 4);
    RangeZero(x, 2, 4);
    RangeSame([x[0], x[1]], 0, 2, x, 0);
  }

  /** A number below 2^128 as two limbs. */
  method LowHalf(x: nat) returns (s: seq<Limb>)
    requires x < Modulus(2)
    ensures |s| == 2 && Value(s) == x
  {
    assert Modulus(2) == BASE * BASE;
    s := [x % BASE, x / BASE];
    assert Range(s, 1, 2) == x / BASE;
  }

  // ---------------------------------------------------------------- signed

  const MIN_INT128: string :=
    "-" + "170141183" + "4604692317" + "3168730371" + "5884105728"
  const MIN_INT256: string :=
    "-" + "5789604" + "4618658097" + "7117854925" + "0434395392"
    + "6634992332" + "8202820197" + "2879200395" + "6564819968"

  const TEN_DIGITS: nat := 10000000000

  lemma AppendGroup(q: nat, r: nat, w: nat, t: nat, v: nat)
    requires q > 0 && t == Pow10(w) && r < t && v == q * t + r
    ensures v > 0 && Digits(v) == Digits(q) + Padded(r, w)
  {
    Itoa.TextJoin(q, r, w);
  }

  lemma JoinGroup(q: nat, r: nat, w: nat) returns (v: nat)
    requires q > 0 && r < Pow10(w)
    ensures v == q * Pow10(w) + r && Digits(v) == Digits(q) + Padded(r, w)
  {
    v := q * Pow10(w) + r;
    Itoa.TextJoin(q, r, w);
  }

  /** Three more groups of w digits. */
  lemma AppendGroups(q: nat, b: nat, c: nat, d: nat, w: nat, t: nat, v: nat)
    requires q > 0 && t == Pow10(w) && b < t && c < t && d < t && v == ((q * t + b) * t + c) * t + d
    ensures v > 0 && Digits(v) == Digits(q) + Padded(b, w) + Padded(c, w) + Padded(d, w)
  {
    Itoa.TextJoin(q, b, w);
    Itoa.TextJoin(q * t + b, c, w);
    Itoa.TextJoin((q * t + b) * t + c, d, w);
  }

  lemma OneDigit(d: nat)
    requires 0 < d < 10
    ensures Digits(d) == [DigitChar(d)]
  {
    assert Digits(d) == Digits(0) + [DigitChar(d)];
  }

  /** The leading digits, as a number that the proofs below need not evaluate again. */
  lemma Lead128() returns (q: nat)
    ensures q - 1 == 170141182 && Digits(q) == "170141183"
  {
    assert Pow10(8) == 100000000;
    q := JoinGroup(1, 70141183, 8);
    LeadGroup128();
    OneDigit(1);
  }

  lemma LeadGroup128()
    ensures Padded(70141183, 8) == "70141183"
  {
  }

  lemma Lead256() returns (q: nat)
    ensures q - 1 == 5789603 && Digits(q) == "5789604"
  {
    assert Pow10(6) == 1000000;
    q := JoinGroup(5, 789604, 6);
    LeadGroup256();
    OneDigit(5);
  }

  lemma LeadGroup256()
    ensures Padded(789604, 6) == "789604"
  {
  }

  lemma MinText128(v: nat)
    requires 2 * v == Modulus(2)
    ensures v > 0 && "-" + Digits(v) == MIN_INT128
  {
    assert Pow10(10) == TEN_DIGITS;
    var q := Lead128();
    AppendGroups(q, 4604692317, 3168730371, 5884105728, 10, TEN_DIGITS, v);
    Group4604692317(); Group3168730371(); Group5884105728();
  }

  lemma MinParts256(v: nat, q: nat) returns (front: nat, middle: nat)
    requires 2 * v == Modulus(4) && q - 1 == 5789603
    ensures front == ((q * TEN_DIGITS + 4618658097) * TEN_DIGITS + 7117854925) * TEN_DIGITS + 434395392
    ensures middle == ((front * TEN_DIGITS + 6634992332) * TEN_DIGITS + 8202820197) * TEN_DIGITS + 2879200395
    ensures v == middle * TEN_DIGITS + 6564819968
  {
    front := ((q * TEN_DIGITS + 4618658097) * TEN_DIGITS + 7117854925) * TEN_DIGITS + 434395392;
    middle := ((front * TEN_DIGITS + 6634992332) * TEN_DIGITS + 8202820197) * TEN_DIGITS + 2879200395;
  }

  lemma MinText256(v: nat)
    requires 2 * v == Modulus(4)
    ensures v > 0 && "-" + Digits(v) == MIN_INT256
  {
    var q := Lead256();
    var front, middle := MinParts256(v, q);
    Front256(q, front);
    Middle256(front, middle);
    Last256(middle, v);
  }

  lemma Front256(q: nat, front: nat)
    requires q > 0
    requires front == ((q * TEN_DIGITS + 4618658097) * TEN_DIGITS + 7117854925) * TEN_DIGITS + 434395392
    ensures front > 0 && Digits(front) == Digits(q) + "4618658097" + "7117854925" + "0434395392"
  {
    assert Pow10(10) == TEN_DIGITS;
    AppendGroups(q, 4618658097, 7117854925, 434395392, 10, TEN_DIGITS, front);
    Group4618658097(); Group7117854925(); Group0434395392();
  }

  lemma Middle256(q: nat, middle: nat)
    requires q > 0
    requires middle == ((q * TEN_DIGITS + 6634992332) * TEN_DIGITS + 8202820197) * TEN_DIGITS + 2879200395
    ensures middle > 0 && Digits(middle) == Digits(q) + "6634992332" + "8202820197" + "2879200395"
  {
    assert Pow10(10) == TEN_DIGITS;
    AppendGroups(q, 6634992332, 8202820197, 2879200395, 10, TEN_DIGITS, middle);
    Group6634992332(); Group8202820197(); Group2879200395();
  }

  lemma Last256(q: nat, v: nat)
    requires q > 0 && v == q * TEN_DIGITS + 6564819968
    ensures v > 0 && Digits(v) == Digits(q) + "6564819968"
  {
    assert Pow10(10) == TEN_DIGITS;
    AppendGroup(q, 6564819968, 10, TEN_DIGITS, v);
    Group6564819968();
  }

  lemma Group4604692317()
    ensures Padded(4604692317, 10) == "4604692317"
  {
  }

  lemma Group3168730371()
    ensures Padded(3168730371, 10) == "3168730371"
  {
  }

  lemma Group5884105728()
    ensures Padded(5884105728, 10) == "5884105728"
  {
  }

  lemma Group4618658097()
    ensures Padded(4618658097, 10) == "4618658097"
  {
  }

  lemma Group7117854925()
    ensures Padded(7117854925, 10) == "7117854925"
  {
  }

  lemma Group0434395392()
    ensures Padded(434395392, 10) == "0434395392"
  {
  }

  lemma Group6634992332()
    ensures Padded(6634992332, 10) == "6634992332"
  {
  }

  lemma Group8202820197()
    ensures Padded(8202820197, 10) == "8202820197"
  {
  }

  lemma Group2879200395()
    ensures Padded(2879200395, 10) == "2879200395"
  {
  }

  lemma Group6564819968()
    ensures Padded(6564819968, 10) == "6564819968"
  {
  }

  /** Any text, as memcpy copies it. */
  method CopyText(a: array<char>, p: nat, text: string) returns (r: nat)
    requires p + |text| <= a.Length
    modifies a
    ensures r == p + |text| && Itoa.Written(a[..], old(a[..]), p, text)
  {
    for i := 0 to |text|
      invariant Itoa.Written(a[..], old(a[..]), p, text[..i])
    {
      a[p + i] := text[i];
    }
    r := p + |text|;
  }

  /** Signed integers of 128 and 256 bits; the minimum has no negation and is written as a constant. */
  method WriteSInt(a: array<char>, p: nat, x: seq<Limb>) returns (r: nat)
    requires (|x| == 2 || |x| == 4) && p + |SignedText(Signed(x, true))| <= a.Length
    modifies a
    ensures r == p + |SignedText(Signed(x, true))|
    ensures Itoa.Written(a[..], old(a[..]), p, SignedText(Signed(x, true)))
  {
    var isMin := IsMinimum(x);
    if isMin {
      MinimumText(x);
      if |x| == 2 { r := CopyText(a, p, MIN_INT128); } else { r := CopyText(a, p, MIN_INT256); }
      return;
    }
    var u := MakePositive(x, true);
    if IsNegative(x, true) {
      NegativeSign(x, true);
      r := CopyText(a, p, "-");
      ghost var mid := a[..];
      r := WriteUInt(a, r, u);
      Itoa.WrittenTwice(a[..], mid, old(a[..]), p, "-", DecimalText(Value(u)));
    } else {
      r := WriteUInt(a, p, u);
    }
  }

  method WriteUInt(a: array<char>, p: nat, x: seq<Limb>) returns (r: nat)
    requires (|x| == 2 || |x| == 4) && p + |DecimalText(Value(x))| <= a.Length
    modifies a
    ensures r == p + |DecimalText(Value(x))| && Itoa.Written(a[..], old(a[..]), p, DecimalText(Value(x)))
  {
    if |x| == 2 { r := WriteUInt128(a, p, x); } else { r := WriteUInt256(a, p, x); }
  }

  /** x is 2^(N - 1): only the top bit is set. */
  method IsMinimum(x: seq<Limb>) returns (r: bool)
    requires x != []
    ensures r == (2 * Signed(x, true) == 0 - Modulus(|x|))
  {
    var top := Zeros(|x|)[|x| - 1 := BASE / 2];
    MinimumValue(top);
    r := x == top;
    SignedResidue(x, true);
    SignedResidue(top, true);
    if Value(x) == Value(top) { ValueInjective(x, top); }
  }

  lemma MinimumValue(top: seq<Limb>)
    requires top != [] && top[|top| - 1] == BASE / 2 && forall k :: 0 <= k < |top| - 1 ==> top[k] == 0
    ensures 2 * Signed(top, true) == 0 - Modulus(|top|)
  {
    TopOnly(top);
    HalfModulus(Modulus(|top| - 1));
  }

  lemma HalfModulus(m: nat)
    ensures 2 * (m * (BASE / 2)) == BASE * m
  {
  }

  lemma TopOnly(s: seq<Limb>)
    requires s != [] && forall k :: 0 <= k < |s| - 1 ==> s[k] == 0
    ensures Value(s) == Modulus(|s| - 1) * s[|s| - 1]
  {
    var n := |s|;
    RangeSplit(s, 0, n - 1, n);
    RangeZero(s, 0, n - 1);
    assert Range(s, n - 1, n) == s[n - 1];
  }

  lemma MinimumText(x: seq<Limb>)
    requires (|x| == 2 || |x| == 4) && 2 * Signed(x, true) == 0 - Modulus(|x|)
    ensures SignedText(Signed(x, true)) == if |x| == 2 then MIN_INT128 else MIN_INT256
  {
    if |x| == 2 { MinText128(-Signed(x, true)); } else { MinText256(-Signed(x, true)); }
  }
}
