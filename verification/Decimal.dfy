/** Numbers written as text. */
module Decimal {

  function DigitChar(d: nat): char
    requires d < 10
  {
    ('0' as int + d) as char
  }

  predicate IsDigit(c: char) { '0' <= c <= '9' }

  predicate IsHexDigit(c: char) {
    IsDigit(c) || 'a' <= c <= 'f' || 'A' <= c <= 'F'
  }

  function DigitValue(c: char): nat
    requires IsDigit(c)
  {
    c as int - '0' as int
  }

  predicate AllDigits(s: string) {
    forall i :: 0 <= i < |s| ==> IsDigit(s[i])
  }

  /** The decimal digits of n, most significant first; none for zero. */
  function Digits(n: nat): string {
    if n == 0 then "" else Digits(n / 10) + [DigitChar(n % 10)]
  }

  /** The canonical decimal text. */
  function DecimalText(n: nat): string {
    if n == 0 then "0" else Digits(n)
  }

  function SignedText(v: int): string {
    if v < 0 then "-" + DecimalText(-v) else DecimalText(v)
  }

  /** The number a text of digits denotes. */
  function Number(s: string): nat
    requires AllDigits(s)
  {
    if s == "" then 0 else 10 * Number(s[..|s| - 1]) + DigitValue(s[|s| - 1])
  }

  lemma NumberAppend(s: string, c: char)
    requires AllDigits(s) && IsDigit(c)
    ensures AllDigits(s + [c]) && Number(s + [c]) == 10 * Number(s) + DigitValue(c)
  {
    assert (s + [c])[..|s|] == s;
  }

  lemma {:induction false} DigitsNumber(n: nat)
    ensures AllDigits(Digits(n)) && Number(Digits(n)) == n
  {
    if n > 0 {
      DigitsNumber(n / 10);
      NumberAppend(Digits(n / 10), DigitChar(n % 10));
    }
  }

  /** Reading the canonical text gives the number back. */
  lemma DecimalRoundTrip(n: nat)
    ensures DecimalText(n) != "" && AllDigits(DecimalText(n)) && Number(DecimalText(n)) == n
  {
    DigitsNumber(n);
    if n == 0 {
      NumberAppend("", '0');
      assert "" + ['0'] == "0";
    }
  }

  lemma {:induction false} DigitsLead(n: nat)
    requires n > 0
    ensures Digits(n) != "" && Digits(n)[0] != '0'
  {
    if n >= 10 { DigitsLead(n / 10); }
  }

  /** Canonical: no leading zero, but for zero itself. */
  predicate Canonical(s: string) {
    s != "" && AllDigits(s) && (s[0] == '0' ==> s == "0")
  }

  /** There is exactly one canonical text for each number. */
  lemma DecimalIsCanonical(n: nat)
    ensures Canonical(DecimalText(n))
    ensures forall s: string :: Canonical(s) && Number(s) == n ==> s == DecimalText(n)
  {
    DecimalRoundTrip(n);
    if n > 0 { DigitsLead(n); }
    forall s: string | Canonical(s) && Number(s) == n ensures s == DecimalText(n) {
      if s == "0" { NumberAppend("", '0'); assert "" + ['0'] == s; } else { CanonicalDigits(s); }
    }
  }

  lemma {:induction false} CanonicalDigits(s: string)
    requires s != "" && AllDigits(s) && s[0] != '0'
    ensures Number(s) > 0 && s == Digits(Number(s))
    decreases |s|
  {
    var t := s[..|s| - 1];
    assert s == t + [s[|s| - 1]];
    NumberAppend(t, s[|s| - 1]);
    if t == "" {
      assert Digits(0) == "" && Number(t) == 0;
    } else {
      CanonicalDigits(t);
    }
    assert Number(s) / 10 == Number(t) && Number(s) % 10 == DigitValue(s[|s| - 1]);
  }

  // ---------------------------------------------------------------- fixed widths

  function Pow10(n: nat): (p: nat)
    ensures p >= 1
  {
    if n == 0 then 1 else 10 * Pow10(n - 1)
  }

  /** The last w decimal digits of n, leading zeros included. */
  function Padded(n: nat, w: nat): (s: string)
    ensures |s| == w
    decreases w
  {
    if w == 0 then "" else Padded(n / 10, w - 1) + [DigitChar(n % 10)]
  }

  lemma TensSplit(q: nat, r: nat, w: nat)
    requires w > 0 && r < Pow10(w)
    ensures (q * Pow10(w) + r) / 10 == q * Pow10(w - 1) + r / 10 && (q * Pow10(w) + r) % 10 == r % 10
    ensures r / 10 < Pow10(w - 1)
  {
    assert q * (10 * Pow10(w - 1)) == 10 * (q * Pow10(w - 1));
  }

  /** Digits of a quotient followed by all digits of a remainder below 10^w. */
  lemma {:induction false} DigitsJoin(q: nat, r: nat, w: nat)
    requires q > 0 && r < Pow10(w)
    ensures Digits(q) + Padded(r, w) == Digits(q * Pow10(w) + r)
    decreases w
  {
    if w > 0 {
      TensSplit(q, r, w);
      DigitsJoin(q, r / 10, w - 1);
      assert Digits(q) + Padded(r, w) == Digits(q) + Padded(r / 10, w - 1) + [DigitChar(r % 10)];
    }
  }

  lemma {:induction false} PaddedJoin(q: nat, v: nat, r: nat, w: nat)
    requires r < Pow10(w)
    ensures Padded(q, v) + Padded(r, w) == Padded(q * Pow10(w) + r, v + w)
    decreases w
  {
    if w > 0 {
      TensSplit(q, r, w);
      PaddedJoin(q, v, r / 10, w - 1);
      assert Padded(q, v) + Padded(r, w) == Padded(q, v) + Padded(r / 10, w - 1) + [DigitChar(r % 10)];
    } else {
      assert q * Pow10(0) + r == q;
    }
  }
}
