/** The skippers as the loops they are: each moves a position through the text. */
module JsonReader {
  import opened Decimal
  import opened JsonText
  import opened JsonSkip

  method ReadString(s: string, begin: nat) returns (r: Result<nat>)
    ensures r == SkipString(s, begin)
  {
    var pos := begin;
    if pos >= |s| || s[pos] != '"' { return Thrown; }
    pos := pos + 1;
    var closingQuote := FindQuote(s, pos);
    if closingQuote < |s| && s[closingQuote - 1] != '\\' { return Ok(closingQuote + 1); }
    while pos < |s| && s[pos] != '"'
      invariant SkipEscaped(s, pos) == SkipEscaped(s, begin + 1)
      decreases |s| - pos
    {
      if s[pos] == '\\' {
        pos := pos + 1;
        if pos >= |s| { return Thrown; }
        if s[pos] == 'u' {
          pos := pos + 4;
          if pos >= |s| { return Thrown; }
        }
      }
      pos := pos + 1;
    }
    if pos >= |s| { return Thrown; }
    r := Ok(pos + 1);
  }

  /** The loop over digits that the number skipper runs three times. */
  method ReadDigits(s: string, begin: nat) returns (pos: nat)
    ensures pos == SkipDigits(s, begin)
  {
    pos := begin;
    while pos < |s| && '0' <= s[pos] <= '9'
      invariant SkipDigits(s, pos) == SkipDigits(s, begin)
    {
      pos := pos + 1;
    }
  }

  method ReadMantissa(s: string, begin: nat) returns (pos: nat)
    ensures pos == SkipMantissa(s, begin)
  {
    pos := begin;
    if pos < |s| && s[pos] == '-' { pos := pos + 1; }
    pos := ReadDigits(s, pos);
    if pos < |s| && s[pos] == '.' { pos := pos + 1; }
    pos := ReadDigits(s, pos);
  }

  method ReadExponent(s: string, begin: nat) returns (pos: nat)
    ensures pos == SkipExponent(s, begin)
  {
    pos := begin;
    if pos < |s| && (s[pos] == 'e' || s[pos] == 'E') { pos := pos + 1; }
    if pos < |s| && s[pos] == '-' { pos := pos + 1; }
    pos := ReadDigits(s, pos);
  }

  method ReadNumber(s: string, begin: nat) returns (r: Result<nat>)
    ensures r == SkipNumber(s, begin)
  {
    if begin >= |s| { return Thrown; }
    var pos := ReadMantissa(s, begin);
    pos := ReadExponent(s, pos);
    r := Ok(pos);
  }

  method TypeAt(s: string, begin: nat) returns (r: Result<ElementType>)
    requires begin < |s|
    ensures r == GetType(s, begin)
  {
    match s[begin]
    case '{' => r := Ok(ObjectType);
    case '[' => r := Ok(ArrayType);
    case 't' | 'f' => r := Ok(BoolType);
    case 'n' => r := Ok(NullType);
    case '"' =>
      var afterString := ReadString(s, begin);
      if afterString.Thrown? { return Thrown; }
      r := if Next(s, afterString.value, ':') then Ok(PairType) else Ok(StringType);
    case c => r := if c == '-' || IsDigit(c) then Ok(NumberType) else Thrown;
  }

  method ReadNameValuePair(s: string, begin: nat, level: nat) returns (r: Result<nat>)
    requires level <= MAX_DEPTH
    ensures r == SkipNameValuePair(s, begin, level)
    decreases MAX_DEPTH - level, 3
  {
    var name := ReadString(s, begin);
    if name.Thrown? || name.value >= |s| || s[name.value] != ':' { return Thrown; }
    if !CheckInit(s, name.value + 1, level + 1) { return Thrown; }
    r := ReadElement(s, name.value + 1, level + 1);
  }

  method ReadArray(s: string, begin: nat, level: nat) returns (r: Result<nat>)
    requires CheckInit(s, begin, level)
    ensures r == SkipArray(s, begin, level)
    decreases MAX_DEPTH - level, 3
  {
    var pos := begin + 1;
    if pos >= |s| { return Thrown; }
    if s[pos] == ']' { return Ok(pos + 1); }
    while true
      invariant SkipItems(s, pos, level) == SkipItems(s, begin + 1, level)
      decreases |s| - pos
    {
      if !CheckInit(s, pos, level + 1) { return Thrown; }
      var element := ReadElement(s, pos, level + 1);
      if element.Thrown? || element.value >= |s| { return Thrown; }
      pos := element.value;
      if s[pos] == ']' { return Ok(pos + 1); }
      if s[pos] != ',' { return Thrown; }
      pos := pos + 1;
    }
  }

  method ReadObject(s: string, begin: nat, level: nat) returns (r: Result<nat>)
    requires CheckInit(s, begin, level)
    ensures r == SkipObject(s, begin, level)
    decreases MAX_DEPTH - level, 3
  {
    var pos := begin + 1;
    if pos >= |s| { return Thrown; }
    if s[pos] == '}' { return Ok(pos + 1); }
    while true
      invariant SkipMembers(s, pos, level) == SkipMembers(s, begin + 1, level)
      decreases |s| - pos
    {
      if !CheckInit(s, pos, level + 1) { return Thrown; }
      var pair := ReadNameValuePair(s, pos, level + 1);
      if pair.Thrown? || pair.value >= |s| { return Thrown; }
      pos := pair.value;
      if s[pos] == '}' { return Ok(pos + 1); }
      if s[pos] != ',' { return Thrown; }
      pos := pos + 1;
    }
  }

  method ReadElement(s: string, begin: nat, level: nat) returns (r: Result<nat>)
    requires CheckInit(s, begin, level)
    ensures r == SkipElement(s, begin, level)
    decreases MAX_DEPTH - level, 4
  {
    var t := TypeAt(s, begin);
    if t.Thrown? { return Thrown; }
    match t.value
    case NullType => r := Ok(begin + 4);
    case BoolType => r := SkipBool(s, begin);
    case NumberType => r := ReadNumber(s, begin);
    case StringType => r := ReadString(s, begin);
    case PairType => r := ReadNameValuePair(s, begin, level);
    case ArrayType => r := ReadArray(s, begin, level);
    case ObjectType => r := ReadObject(s, begin, level);
  }
}
