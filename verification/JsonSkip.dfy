/** Skipping over one element of a JSON text, as functions of the text s, a position and the nesting level. The end of
    the text is |s|; a position past it is one that the range check refuses. */
module JsonSkip {
  import opened Decimal
  import opened JsonText

  const MAX_DEPTH: nat := 100

  datatype Result<T> = Ok(value: T) | Thrown

  datatype ElementType = ObjectType | ArrayType | NumberType | StringType | BoolType | NullType | PairType

  /** The check every reader object makes when it is built. */
  predicate CheckInit(s: string, pos: nat, level: nat) {
    pos < |s| && level <= MAX_DEPTH
  }

  // ---------------------------------------------------------------- strings

  /** The first double quote at or after pos, or the end. */
  function FindQuote(s: string, pos: nat): (q: nat)
    requires pos <= |s|
    ensures pos <= q <= |s| && (q < |s| ==> s[q] == '"') && forall i :: pos <= i < q ==> s[i] != '"'
    decreases |s| - pos
  {
    if pos == |s| || s[pos] == '"' then pos else FindQuote(s, pos + 1)
  }

  /** The careful path: escape by escape up to the closing quote. */
  function SkipEscaped(s: string, pos: nat): (r: Result<nat>)
    ensures r.Ok? ==> pos < r.value <= |s|
    decreases |s| - pos
  {
    if pos >= |s| then Thrown
    else if s[pos] == '"' then Ok(pos + 1)
    else if s[pos] == '\\' then
      if pos + 1 >= |s| then Thrown
      else if s[pos + 1] == 'u' then
        if pos + 5 >= |s| then Thrown else SkipEscaped(s, pos + 6)
      else SkipEscaped(s, pos + 2)
    else SkipEscaped(s, pos + 1)
  }

  function SkipString(s: string, pos: nat): (r: Result<nat>)
    ensures r.Ok? ==> pos < r.value <= |s|
  {
    if pos >= |s| || s[pos] != '"' then Thrown
    else
      var quote := FindQuote(s, pos + 1);
      if quote < |s| && s[quote - 1] != '\\' then Ok(quote + 1) else SkipEscaped(s, pos + 1)
  }

  // ---------------------------------------------------------------- other scalars

  function SkipDigits(s: string, pos: nat): (r: nat)
    ensures pos <= r && (r <= |s| || r == pos)
    decreases |s| - pos
  {
    if pos < |s| && IsDigit(s[pos]) then SkipDigits(s, pos + 1) else pos
  }

  predicate Next(s: string, pos: nat, c: char) {
    pos < |s| && s[pos] == c
  }

  function SkipChar(s: string, pos: nat, c: char): nat {
    if Next(s, pos, c) then pos + 1 else pos
  }

  function SkipMantissa(s: string, pos: nat): (r: nat)
    ensures pos <= r
  {
    SkipDigits(s, SkipChar(s, SkipDigits(s, SkipChar(s, pos, '-')), '.'))
  }

  /** The sign of an exponent is looked for with or without the letter, and only the minus sign. */
  function SkipExponent(s: string, pos: nat): (r: nat)
    ensures pos <= r
  {
    var letter := if Next(s, pos, 'e') || Next(s, pos, 'E') then pos + 1 else pos;
    SkipDigits(s, SkipChar(s, letter, '-'))
  }

  function SkipNumber(s: string, pos: nat): (r: Result<nat>)
    ensures r.Ok? ==> pos <= r.value
  {
    if pos >= |s| then Thrown else Ok(SkipExponent(s, SkipMantissa(s, pos)))
  }

  function SkipBool(s: string, pos: nat): Result<nat> {
    if Next(s, pos, 't') then Ok(pos + 4) else if Next(s, pos, 'f') then Ok(pos + 5) else Thrown
  }

  // ---------------------------------------------------------------- elements

  function GetType(s: string, pos: nat): Result<ElementType>
    requires pos < |s|
  {
    var c := s[pos];
    if c == '{' then Ok(ObjectType)
    else if c == '[' then Ok(ArrayType)
    else if c == 't' || c == 'f' then Ok(BoolType)
    else if c == 'n' then Ok(NullType)
    else if c == '-' || IsDigit(c) then Ok(NumberType)
    else if c == '"' then
      var after := SkipString(s, pos);
      if after.Thrown? then Thrown
      else if Next(s, after.value, ':') then Ok(PairType) else Ok(StringType)
    else Thrown
  }

  function SkipElement(s: string, pos: nat, level: nat): (r: Result<nat>)
    requires CheckInit(s, pos, level)
    ensures r.Ok? ==> pos <= r.value
    decreases MAX_DEPTH - level, 4, 0
  {
    var t := GetType(s, pos);
    if t.Thrown? then Thrown
    else
      match t.value
      case NullType => Ok(pos + 4)
      case BoolType => SkipBool(s, pos)
      case NumberType => SkipNumber(s, pos)
      case StringType => SkipString(s, pos)
      case PairType => SkipNameValuePair(s, pos, level)
      case ArrayType => SkipArray(s, pos, level)
      case ObjectType => SkipObject(s, pos, level)
  }

  function SkipNameValuePair(s: string, pos: nat, level: nat): (r: Result<nat>)
    requires level <= MAX_DEPTH
    ensures r.Ok? ==> pos <= r.value
    decreases MAX_DEPTH - level, 3, 0
  {
    var after := SkipString(s, pos);
    if after.Thrown? || !Next(s, after.value, ':') then Thrown
    else if !CheckInit(s, after.value + 1, level + 1) then Thrown
    else SkipElement(s, after.value + 1, level + 1)
  }

  function SkipArray(s: string, pos: nat, level: nat): (r: Result<nat>)
    requires CheckInit(s, pos, level)
    ensures r.Ok? ==> pos <= r.value
    decreases MAX_DEPTH - level, 3, 0
  {
    if pos + 1 >= |s| then Thrown
    else if s[pos + 1] == ']' then Ok(pos + 2)
    else SkipItems(s, pos + 1, level)
  }

  /** The loop over the elements of an array, from the one at pos. */
  function SkipItems(s: string, pos: nat, level: nat): (r: Result<nat>)
    requires level <= MAX_DEPTH
    ensures r.Ok? ==> pos <= r.value
    decreases MAX_DEPTH - level, 2, |s| - pos
  {
    if !CheckInit(s, pos, level + 1) then Thrown
    else
      var next := SkipElement(s, pos, level + 1);
      if next.Thrown? || next.value >= |s| then Thrown
      else if s[next.value] == ',' then SkipItems(s, next.value + 1, level)
      else if s[next.value] == ']' then Ok(next.value + 1)
      else Thrown
  }

  function SkipObject(s: string, pos: nat, level: nat): (r: Result<nat>)
    requires CheckInit(s, pos, level)
    ensures r.Ok? ==> pos <= r.value
    decreases MAX_DEPTH - level, 3, 0
  {
    if pos + 1 >= |s| then Thrown
    else if s[pos + 1] == '}' then Ok(pos + 2)
    else SkipMembers(s, pos + 1, level)
  }

  /** The loop over the members of an object, from the one at pos. */
  function SkipMembers(s: string, pos: nat, level: nat): (r: Result<nat>)
    requires level <= MAX_DEPTH
    ensures r.Ok? ==> pos <= r.value
    decreases MAX_DEPTH - level, 2, |s| - pos
  {
    if !CheckInit(s, pos, level + 1) then Thrown
    else
      var next := SkipNameValuePair(s, pos, level + 1);
      if next.Thrown? || next.value >= |s| then Thrown
      else if s[next.value] == ',' then SkipMembers(s, next.value + 1, level)
      else if s[next.value] == '}' then Ok(next.value + 1)
      else Thrown
  }
}
