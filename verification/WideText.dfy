/** Wide integers to and from text. */
module WideText {
  import opened Bits
  import opened Decimal
  import opened WideLimbs
  import opened WideArith
  import opened WideMultiply
  import opened WideDivide

  // ---------------------------------------------------------------- what a text denotes

  function HexValue(c: char): nat
    requires IsHexDigit(c)
  {
    if IsDigit(c) then DigitValue(c) else if c >= 'a' then c as int - 'a' as int + 10 else c as int - 'A' as int + 10
  }

  predicate AllHex(s: string) {
    forall i :: 0 <= i < |s| ==> IsHexDigit(s[i])
  }

  function HexNumber(s: string): nat
    requires AllHex(s)
  {
    if s == "" then 0 else 16 * HexNumber(s[..|s| - 1]) + HexValue(s[|s| - 1])
  }

  datatype Parsed = Parsed(value: int) | InvalidChar

  predicate HasHexPrefix(s: string) {
    |s| >= 2 && s[0] == '0' && (s[1] == 'x' || s[1] == 'X')
  }

  /** The number after the sign: hexadecimal after 0x, else decimal. The empty text is zero. */
  function Unsigned(s: string): Parsed {
    if HasHexPrefix(s) then
      if AllHex(s[2..]) then Parsed(HexNumber(s[2..])) else InvalidChar
    else if AllDigits(s) then Parsed(Number(s)) else InvalidChar
  }

  function Parse(s: string, signed: bool): Parsed {
    if signed && s != "" && s[0] == '-' then
      var p := Unsigned(s[1..]);
      if p.InvalidChar? then InvalidChar else Parsed(-p.value)
    else Unsigned(s)
  }

  /** The text before the terminating zero character. */
  function Terminated(s: string): (t: string)
    ensures |t| <= |s| && t == s[..|t|] && '\0' !in t && (|t| < |s| ==> s[|t|] == '\0')
  {
    if s == "" || s[0] == '\0' then "" else [s[0]] + Terminated(s[1..])
  }

  /** Reading past the end finds the terminating zero. */
  function At(s: string, i: nat): char {
    if i < |s| then s[i] else '\0'
  }

  // ---------------------------------------------------------------- parsing

  lemma HornerModulo(v: nat, k: nat, b: nat, d: nat, m: nat)
    requires m > 0 && v == k % m
    ensures ((v * b) % m + d) % m == (k * b + d) % m
  {
    ModReduce(1, v * b, d, m);
    ModReduce(b, k, d, m);
    assert v * b == b * v && b * k == k * b;
  }

  /** res * b + d, as the parser does for every digit. */
  method AppendDigit(res: seq<Limb>, b: Limb, d: Limb, ghost k: nat) returns (r: seq<Limb>)
    requires res != [] && Value(res) == k % Modulus(|res|)
    ensures |r| == |res| && Value(r) == (k * b + d) % Modulus(|res|)
  {
    OneLimb(b);
    OneLimb(d);
    if |res| == 4 {
      r := Multiply256(res, [b]);
    } else {
      r := MultiplyGeneric(res, [b]);
    }
    r := Plus(r, [d]);
    HornerModulo(Value(res), k, b, d, Modulus(|res|));
  }

  /** res is the number of the decimal digits read so far. */
  ghost predicate ReadDecimal(res: seq<Limb>, digits: string, n: nat) {
    AllDigits(digits) && |res| == n && Value(res) == Number(digits) % Modulus(n)
  }

  method AppendDecimal(res: seq<Limb>, c: char, ghost digits: string) returns (r: seq<Limb>)
    requires res != [] && IsDigit(c) && ReadDecimal(res, digits, |res|)
    ensures ReadDecimal(r, digits + [c], |res|)
  {
    NumberAppend(digits, c);
    r := AppendDigit(res, 10, DigitValue(c), Number(digits));
  }

  /** The character at i of a terminated text. */
  lemma CharAt(c: string, start: nat, i: nat)
    requires start <= i <= |Terminated(c)|
    ensures i < |Terminated(c)| <==> At(c, i) != '\0'
    ensures i < |Terminated(c)| ==> i < |c| && c[i] == Terminated(c)[start..][i - start]
                                    && Terminated(c)[start..i + 1] == Terminated(c)[start..i] + [c[i]]
  {
  }

  method ParseDecimal(c: string, start: nat, zero: seq<Limb>) returns (ok: bool, res: seq<Limb>)
    requires start <= |Terminated(c)| && zero != [] && Value(zero) == 0
    ensures ok == AllDigits(Terminated(c)[start..])
    ensures ok ==> ReadDecimal(res, Terminated(c)[start..], |zero|)
  {
    ghost var t := Terminated(c);
    var i := start;
    res := zero;
    CharAt(c, start, i);
    while At(c, i) != '\0'
      invariant start <= i <= |t| && ReadDecimal(res, t[start..i], |zero|)
      invariant i < |t| <==> At(c, i) != '\0'
      decreases |t| - i
    {
      CharAt(c, start, i);
      if c[i] < '0' || c[i] > '9' { return false, res; }
      res := AppendDecimal(res, c[i], t[start..i]);
      i := i + 1;
      CharAt(c, start, i);
    }
    assert t[start..i] == t[start..];
    ok := true;
  }

  lemma HexAppend(s: string, c: char)
    requires AllHex(s) && IsHexDigit(c)
    ensures AllHex(s + [c]) && HexNumber(s + [c]) == 16 * HexNumber(s) + HexValue(c)
  {
    assert (s + [c])[..|s|] == s;
  }

  ghost predicate ReadHex(res: seq<Limb>, digits: string, n: nat) {
    AllHex(digits) && |res| == n && Value(res) == HexNumber(digits) % Modulus(n)
  }

  method AppendHex(res: seq<Limb>, c: char, d: Limb, ghost digits: string) returns (r: seq<Limb>)
    requires res != [] && IsHexDigit(c) && d == HexValue(c) && ReadHex(res, digits, |res|)
    ensures ReadHex(r, digits + [c], |res|)
  {
    HexAppend(digits, c);
    r := AppendDigit(res, 16, d, HexNumber(digits));
  }

  method ReadHexDigit(c: char) returns (ok: bool, d: Limb)
    ensures ok == IsHexDigit(c) && (ok ==> d == HexValue(c) < 16)
  {
    if '0' <= c <= '9' {
      return true, c as int - '0' as int;
    } else if 'a' <= c <= 'f' {
      return true, c as int - 'a' as int + 10;
    } else if 'A' <= c <= 'F' {
      return true, c as int - 'A' as int + 10;
    }
    return false, 0;
  }

  method ParseHex(c: string, start: nat, zero: seq<Limb>) returns (ok: bool, res: seq<Limb>)
    requires start <= |Terminated(c)| && zero != [] && Value(zero) == 0
    ensures ok == AllHex(Terminated(c)[start..])
    ensures ok ==> ReadHex(res, Terminated(c)[start..], |zero|)
  {
    ghost var t := Terminated(c);
    var i := start;
    res := zero;
    CharAt(c, start, i);
    while At(c, i) != '\0'
      invariant start <= i <= |t| && ReadHex(res, t[start..i], |zero|)
      invariant i < |t| <==> At(c, i) != '\0'
      decreases |t| - i
    {
      CharAt(c, start, i);
      var hex, d := ReadHexDigit(c[i]);
      if !hex { return false, res; }
      res := AppendHex(res, c[i], d, t[start..i]);
      i := i + 1;
      CharAt(c, start, i);
    }
    assert t[start..i] == t[start..];
    ok := true;
  }

  /** A text of n limbs: the number it denotes, modulo 2^N, or the error of an invalid character. The width of two
      limbs has no such operation. */
  method FromStr(c: string, n: nat, signed: bool) returns (ok: bool, res: seq<Limb>)
    requires n > 0 && n != 2
    ensures ok <==> Parse(Terminated(c), signed).Parsed?
    ensures ok ==> |res| == n && Value(res) == Parse(Terminated(c), signed).value % Modulus(n)
  {
    var isNeg := signed && At(c, 0) == '-';
    if !isNeg {
      ok, res := ParseUnsigned(c, 0, n);
      assert Terminated(c)[0..] == Terminated(c);
      return;
    }
    ok, res := ParseUnsigned(c, 1, n);
    if ok {
      ghost var v := Unsigned(Terminated(c)[1..]).value;
      res := UnaryMinus(res);
      NegatedResidue(v, Modulus(n));
    }
  }

  /** The digits from `start` on, hexadecimal after 0x. */
  method ParseUnsigned(c: string, start: nat, n: nat) returns (ok: bool, res: seq<Limb>)
    requires n > 0 && n != 2 && start <= |Terminated(c)|
    ensures ok <==> Unsigned(Terminated(c)[start..]).Parsed?
    ensures ok ==> |res| == n && Value(res) == Unsigned(Terminated(c)[start..]).value % Modulus(n)
  {
    ghost var u := Terminated(c)[start..];
    var zero := Zeros(n);
    RangeZero(zero, 0, n);
    if At(c, start) == '0' && (At(c, start + 1) == 'x' || At(c, start + 1) == 'X') {
      assert HasHexPrefix(u) && u[2..] == Terminated(c)[start + 2..];
      ok, res := ParseHex(c, start + 2, zero);
    } else {
      assert !HasHexPrefix(u);
      ok, res := ParseDecimal(c, start, zero);
    }
  }

  // ---------------------------------------------------------------- printing

  /** Quotient and remainder of an unsigned number by ten. */
  method DivideByTen(t: seq<Limb>) returns (q: seq<Limb>, digit: nat)
    requires t != []
    ensures |q| == |t| && Value(q) == Value(t) / 10 && digit == Value(t) % 10
  {
    var ten := Extended([10], |t|);
    ExtendedValue([10], |t|);
    OneLimb(10);
    ghost var v, m := Value(t), Modulus(|t|);
    ValueBound(t);
    var remainder := Percent(t, ten, false);
    var quotient := Slash(t, ten, false);
    DivModUnique(v % 10, m, 0, v % 10) by { assert v % 10 <= v; }
    DivModUnique(v / 10, m, 0, v / 10);
    LowLimb(remainder.value);
    q, digit := quotient.value, remainder.value[0];
  }

  lemma LowLimb(s: seq<Limb>)
    requires s != [] && Value(s) < BASE
    ensures s[0] == Value(s)
  {
  }

  method PrintDigits(n: seq<Limb>) returns (res: string)
    requires n != []
    ensures res == Digits(Value(n))
  {
    OneLimb(0);
    var t := n;
    res := "";
    var zero := Equal(t, [0]);
    while !zero
      invariant |t| == |n| && zero == (Value(t) == 0) && Digits(Value(t)) + res == Digits(Value(n))
      decreases Value(t)
    {
      ghost var before := Value(t);
      var digit;
      t, digit := DivideByTen(t);
      assert Digits(before) + res == Digits(before / 10) + ([DigitChar(digit)] + res);
      res := [DigitChar(digit)] + res;
      zero := Equal(t, [0]);
    }
    assert Digits(0) + res == res;
  }

  method ToString(n: seq<Limb>, signed: bool) returns (res: string)
    requires n != []
    ensures res == SignedText(Signed(n, signed))
  {
    OneLimb(0);
    NegativeSign(n, signed);
    NegativeIsUpperHalf(n);
    var zero := Equal(n, [0]);
    if zero { return "0"; }
    var t := MakePositive(n, signed);
    res := PrintDigits(t);
    if IsNegative(n, signed) { res := ['-'] + res; }
  }

  // ---------------------------------------------------------------- round trip

  /** Parsing undoes printing. */
  lemma ParsePrinted(v: int, signed: bool)
    requires v < 0 ==> signed
    ensures Terminated(SignedText(v)) == SignedText(v) && Parse(SignedText(v), signed) == Parsed(v)
  {
    var a := if v < 0 then -v else v;
    DecimalRoundTrip(a);
    var s := SignedText(v);
    forall i | 0 <= i < |s| ensures s[i] != '\0' {
      if v >= 0 { assert IsDigit(s[i]); } else if i > 0 { assert s[i] == DecimalText(a)[i - 1]; }
    }
    PlainDigits(DecimalText(a));
    if v < 0 { assert s[1..] == DecimalText(a); } else { assert IsDigit(s[0]); }
  }

  lemma PlainDigits(s: string)
    requires AllDigits(s)
    ensures Unsigned(s) == Parsed(Number(s))
  {
    if |s| >= 2 { assert IsDigit(s[1]); }
  }

  const LOWER_HEX: string := "0123456789abcdef"
  const UPPER_HEX: string := "0123456789ABCDEF"

  lemma HexDigitValue(d: nat)
    requires d < 16
    ensures IsHexDigit(LOWER_HEX[d]) && HexValue(LOWER_HEX[d]) == d
    ensures IsHexDigit(UPPER_HEX[d]) && HexValue(UPPER_HEX[d]) == d
  {
  }

  /** The hexadecimal digits of v, most significant first; none for zero. */
  function HexDigits(v: nat, upper: bool): string {
    if v == 0 then "" else HexDigits(v / 16, upper) + [(if upper then UPPER_HEX else LOWER_HEX)[v % 16]]
  }

  lemma {:induction false} HexRoundTrip(v: nat, upper: bool)
    ensures AllHex(HexDigits(v, upper)) && HexNumber(HexDigits(v, upper)) == v
  {
    if v > 0 {
      HexRoundTrip(v / 16, upper);
      HexDigitValue(v % 16);
      HexAppend(HexDigits(v / 16, upper), (if upper then UPPER_HEX else LOWER_HEX)[v % 16]);
    }
  }

  /** Hexadecimal texts are read as well, in both cases of letters and with leading zeros. */
  lemma ParseHexWritten(v: nat, upper: bool, zeros: string, signed: bool)
    requires forall i :: 0 <= i < |zeros| ==> zeros[i] == '0'
    ensures Parse("0x" + (zeros + HexDigits(v, upper)), signed) == Parsed(v)
    ensures Parse("0X" + (zeros + HexDigits(v, upper)), signed) == Parsed(v)
  {
    var digits := zeros + HexDigits(v, upper);
    HexRoundTrip(v, upper);
    LeadingZeros(zeros, HexDigits(v, upper));
    assert ("0x" + digits)[2..] == digits && ("0X" + digits)[2..] == digits;
  }

  lemma {:induction false} LeadingZeros(zeros: string, digits: string)
    requires (forall i :: 0 <= i < |zeros| ==> zeros[i] == '0') && AllHex(digits)
    ensures AllHex(zeros + digits) && HexNumber(zeros + digits) == HexNumber(digits)
    decreases |digits|, |zeros|
  {
    if digits != "" {
      var n := |digits| - 1;
      LeadingZeros(zeros, digits[..n]);
      HexAppend(zeros + digits[..n], digits[n]);
      assert zeros + digits == zeros + digits[..n] + [digits[n]];
    } else if zeros != "" {
      var n := |zeros| - 1;
      LeadingZeros(zeros[..n], digits);
      HexAppend(zeros[..n], '0');
      assert zeros + digits == zeros[..n] + ['0'] && zeros[..n] + digits == zeros[..n];
    } else {
      assert zeros + digits == "";
    }
  }

  method RoundTrip(n: seq<Limb>, signed: bool) returns (ok: bool, m: seq<Limb>)
    requires n != [] && |n| != 2
    ensures ok && m == n
  {
    var text := ToString(n, signed);
    NegativeSign(n, signed);
    ParsePrinted(Signed(n, signed), signed);
    ok, m := FromStr(text, |n|, signed);
    SignedResidue(n, signed);
    ValueInjective(m, n);
  }
}
