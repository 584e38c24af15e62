/** The characters of a string element: with its escapes undone, as they stand, and the shortcut between the two.
    `decode` stands for the conversion of four hexadecimal digits to UTF-8, which may fail. */
module JsonNames {
  import opened JsonText
  import opened JsonSkip
  import opened JsonPrinted

  // ---------------------------------------------------------------- unescaping

  function EscapedChar(c: char): char {
    match c
    case 'b' => '\U{0008}'
    case 'f' => '\U{000C}'
    case 'n' => '\n'
    case 'r' => '\r'
    case 't' => '\t'
    case other => other
  }

  function Prepend(front: string, rest: Result<string>): Result<string> {
    if rest.Thrown? then Thrown else Ok(front + rest.value)
  }

  /** What the string holds from pos up to its closing quote. */
  function Unescape(s: string, pos: nat, decode: string -> Result<string>): Result<string>
    decreases |s| - pos
  {
    if pos >= |s| then Thrown
    else if s[pos] == '"' then Ok("")
    else if s[pos] == '\\' then
      if pos + 1 >= |s| then Thrown
      else if s[pos + 1] == 'u' then
        if pos + 6 >= |s| then Thrown
        else
          var bytes := decode(s[pos + 2..pos + 6]);
          if bytes.Thrown? then Thrown else Prepend(bytes.value, Unescape(s, pos + 6, decode))
      else Prepend([EscapedChar(s[pos + 1])], Unescape(s, pos + 2, decode))
    else Prepend([s[pos]], Unescape(s, pos + 1, decode))
  }

  function GetString(s: string, pos: nat, decode: string -> Result<string>): Result<string>
    requires pos < |s|
  {
    if s[pos] != '"' || pos + 1 >= |s| then Thrown else Unescape(s, pos + 1, decode)
  }

  /** The first backslash or double quote at or after pos, or the end. */
  function FindStop(s: string, pos: nat): (q: nat)
    requires pos <= |s|
    ensures pos <= q <= |s| && (q < |s| ==> s[q] == '"' || s[q] == '\\')
    ensures forall i :: pos <= i < q ==> s[i] != '"' && s[i] != '\\'
    decreases |s| - pos
  {
    if pos == |s| || s[pos] == '"' || s[pos] == '\\' then pos else FindStop(s, pos + 1)
  }

  /** Characters up to the next stop stand for themselves. */
  lemma {:induction false} PlainRun(s: string, pos: nat, q: nat, decode: string -> Result<string>)
    requires pos <= q <= |s| && forall i :: pos <= i < q ==> s[i] != '"' && s[i] != '\\'
    ensures Unescape(s, pos, decode) == Prepend(s[pos..q], Unescape(s, q, decode))
    decreases q - pos
  {
    if pos < q {
      PlainRun(s, pos + 1, q, decode);
      PrependTwice([s[pos]], s[pos + 1..q], Unescape(s, q, decode));
      assert s[pos..q] == [s[pos]] + s[pos + 1..q];
    } else {
      PrependNothing(Unescape(s, q, decode));
    }
  }

  lemma PrependNothing(r: Result<string>)
    ensures Prepend("", r) == r
  {
    if r.Ok? { assert "" + r.value == r.value; }
  }

  lemma PrependTwice(a: string, b: string, r: Result<string>)
    ensures Prepend(a, Prepend(b, r)) == Prepend(a + b, r)
  {
    if r.Ok? { assert a + (b + r.value) == (a + b) + r.value; }
  }

  /** One run of plain characters and the escape or the quote behind it. */
  method ReadRun(s: string, pos: nat, buf: string, decode: string -> Result<string>)
    returns (done: bool, r: Result<string>, pos': nat, buf': string)
    requires pos < |s|
    ensures done ==> r == Prepend(buf, Unescape(s, pos, decode))
    ensures !done ==> pos < pos'
                      && Prepend(buf', Unescape(s, pos', decode)) == Prepend(buf, Unescape(s, pos, decode))
  {
    var p := FindStop(s, pos);
    PlainRun(s, pos, p, decode);
    PrependTwice(buf, s[pos..p], Unescape(s, p, decode));
    buf' := buf + s[pos..p];
    if p >= |s| { return true, Thrown, p, buf'; }
    if s[p] == '"' {
      assert buf' + "" == buf';
      return true, Ok(buf'), p, buf';
    }
    if p + 1 >= |s| { return true, Thrown, p, buf'; }
    var add: Result<string>;
    if s[p + 1] == 'u' {
      if p + 6 >= |s| { return true, Thrown, p, buf'; }
      add, pos' := decode(s[p + 2..p + 6]), p + 6;
    } else {
      add, pos' := Ok([EscapedChar(s[p + 1])]), p + 2;
    }
    if add.Thrown? { return true, Thrown, p, buf'; }
    PrependTwice(buf', add.value, Unescape(s, pos', decode));
    return false, Thrown, pos', buf' + add.value;
  }

  /** The loop that collects the characters, run by run and escape by escape. */
  method ReadText(s: string, begin: nat, decode: string -> Result<string>) returns (r: Result<string>)
    requires begin < |s|
    ensures r == GetString(s, begin, decode)
  {
    if s[begin] != '"' || begin + 1 >= |s| { return Thrown; }
    var pos, buf := begin + 1, "";
    PrependNothing(Unescape(s, pos, decode));
    while pos < |s|
      invariant GetString(s, begin, decode) == Prepend(buf, Unescape(s, pos, decode))
      decreases |s| - pos
    {
      var done;
      done, r, pos, buf := ReadRun(s, pos, buf, decode);
      if done { return; }
    }
    r := Thrown;
  }

  // ---------------------------------------------------------------- the shortcut

  function HasEscapes(s: string, pos: nat): Result<bool>
    requires pos < |s|
  {
    var q := FindStop(s, pos + 1);
    if q == |s| then Thrown else Ok(s[q] == '\\')
  }

  function GetRawString(s: string, pos: nat): Result<string>
    requires pos < |s|
  {
    if s[pos] != '"' then Thrown
    else
      var q := FindQuote(s, pos + 1);
      if q == |s| then Thrown else Ok(s[pos + 1..q])
  }

  /** How a member's name is compared with a key: raw if it has no escape, else unescaped. */
  function NameIs(s: string, pos: nat, key: string, decode: string -> Result<string>): Result<bool>
    requires pos < |s|
  {
    var escapes := HasEscapes(s, pos);
    if escapes.Thrown? then Thrown
    else
      var name := if escapes.value then GetString(s, pos, decode) else GetRawString(s, pos);
      if name.Thrown? then Thrown else Ok(name.value == key)
  }

  /** On every text, a string without escapes reads the same raw and unescaped. */
  lemma RawIsUnescaped(s: string, pos: nat, decode: string -> Result<string>)
    requires pos < |s| && HasEscapes(s, pos) == Ok(false)
    ensures GetRawString(s, pos) == GetString(s, pos, decode)
  {
    var q := FindStop(s, pos + 1);
    FindQuoteFrom(s, pos + 1, q);
    PlainRun(s, pos + 1, q, decode);
    assert s[pos + 1..q] + "" == s[pos + 1..q];
  }

  /** So the comparison is the one with the unescaped name, on every text where the string is closed. */
  lemma NameIsUnescaped(s: string, pos: nat, key: string, decode: string -> Result<string>)
    requires pos < |s| && HasEscapes(s, pos).Ok?
    ensures NameIs(s, pos, key, decode)
            == var name := GetString(s, pos, decode); if name.Thrown? then Thrown else Ok(name.value == key)
  {
    if !HasEscapes(s, pos).value { RawIsUnescaped(s, pos, decode); }
  }

  // ---------------------------------------------------------------- printed strings

  /** The meaning of a text. */
  function Decoded(t: Text, decode: string -> Result<string>): Result<string> {
    match t
    case Nil => Ok("")
    case Cons(Plain(c), rest) => Prepend([c], Decoded(rest, decode))
    case Cons(Escape(e), rest) => Prepend([EscapedChar(e)], Decoded(rest, decode))
    case Cons(Unicode(hex), rest) =>
      var bytes := decode(hex);
      if bytes.Thrown? then Thrown else Prepend(bytes.value, Decoded(rest, decode))
  }

  lemma {:induction false} UnescapePrinted(s: string, p: nat, t: Text, decode: string -> Result<string>)
    requires ValidText(t) && At(s, p, PrintPieces(t)) && Next(s, p + |PrintPieces(t)|, '"')
    ensures Unescape(s, p, decode) == Decoded(t, decode)
    decreases t
  {
    match t
    case Nil =>
    case Cons(piece, rest) =>
      AtSplit(s, p, PrintPiece(piece), PrintPieces(rest));
      UnescapePrinted(s, p + |PrintPiece(piece)|, rest, decode);
      PieceChars(s, p, piece);
  }

  /** Unescaping undoes printing. */
  lemma StringOfPrinted(s: string, pos: nat, t: Text, decode: string -> Result<string>)
    requires ValidText(t) && At(s, pos, Quoted(t))
    ensures pos < |s| && GetString(s, pos, decode) == Decoded(t, decode) && HasEscapes(s, pos).Ok?
  {
    QuotedParts(s, pos, t);
    UnescapePrinted(s, pos + 1, t, decode);
    StopInPrinted(s, pos + 1, pos + 1 + |PrintPieces(t)|);
  }

  lemma {:induction false} StopInPrinted(s: string, p: nat, q: nat)
    requires p <= q && Next(s, q, '"')
    ensures FindStop(s, p) < |s|
    decreases q - p
  {
    if p < q && s[p] != '"' && s[p] != '\\' { StopInPrinted(s, p + 1, q); }
  }
}
