/** The skippers undo the printer. */
module JsonPrinted {
  import opened Decimal
  import opened JsonText
  import opened JsonSkip

  // ---------------------------------------------------------------- a text inside a text

  ghost predicate At(s: string, pos: nat, t: string) {
    pos + |t| <= |s| && forall i {:trigger t[i]} :: 0 <= i < |t| ==> s[pos + i] == t[i]
  }

  lemma AtSplit(s: string, pos: nat, a: string, b: string)
    requires At(s, pos, a + b)
    ensures At(s, pos, a) && At(s, pos + |a|, b)
  {
    forall i {:trigger a[i]} | 0 <= i < |a| ensures s[pos + i] == a[i] { assert (a + b)[i] == a[i]; }
    forall i {:trigger b[i]} | 0 <= i < |b| ensures s[pos + |a| + i] == b[i] { assert (a + b)[|a| + i] == b[i]; }
  }

  lemma AtChar(s: string, pos: nat, c: char, b: string)
    requires At(s, pos, [c] + b)
    ensures Next(s, pos, c) && At(s, pos + 1, b)
  {
    AtSplit(s, pos, [c], b);
    assert [c][0] == c;
  }

  lemma AtSeparated(s: string, pos: nat, a: string, c: char, b: string)
    requires At(s, pos, a + ([c] + b))
    ensures At(s, pos, a) && Next(s, pos + |a|, c) && At(s, pos + |a| + 1, b)
  {
    AtSplit(s, pos, a, [c] + b);
    AtChar(s, pos + |a|, c, b);
  }

  lemma Enclosed(s: string, pos: nat, a: char, t: string, b: char)
    requires At(s, pos, [a] + t + [b])
    ensures Next(s, pos, a) && At(s, pos + 1, t) && Next(s, pos + 1 + |t|, b)
  {
    assert [a] + t + [b] == [a] + (t + [b]);
    AtChar(s, pos, a, t + [b]);
    AtSplit(s, pos + 1, t, [b]);
    assert [b] == [b] + "";
    AtChar(s, pos + 1 + |t|, b, "");
  }

  // ---------------------------------------------------------------- strings

  /** The careful path stops exactly behind the closing quote. */
  lemma {:induction false} EscapedSkip(s: string, p: nat, t: Text)
    requires ValidText(t) && At(s, p, PrintPieces(t)) && Next(s, p + |PrintPieces(t)|, '"')
    ensures SkipEscaped(s, p) == Ok(p + |PrintPieces(t)| + 1)
    decreases t
  {
    match t
    case Nil =>
    case Cons(piece, rest) =>
      AtSplit(s, p, PrintPiece(piece), PrintPieces(rest));
      EscapedSkip(s, p + |PrintPiece(piece)|, rest);
      PieceChars(s, p, piece);
  }

  lemma PieceChars(s: string, p: nat, piece: Piece)
    requires ValidPiece(piece) && At(s, p, PrintPiece(piece))
    ensures piece.Plain? ==> Next(s, p, piece.c) && piece.c != '"' && piece.c != '\\'
    ensures piece.Escape? ==> Next(s, p, '\\') && Next(s, p + 1, piece.e) && piece.e != 'u'
    ensures piece.Unicode? ==> Next(s, p, '\\') && Next(s, p + 1, 'u') && p + 6 <= |s| && s[p + 2..p + 6] == piece.hex
  {
    match piece
    case Plain(c) => AtChar(s, p, c, "");
    case Escape(e) =>
      assert PrintPiece(piece) == ['\\'] + [e];
      AtChar(s, p, '\\', [e]);
      AtChar(s, p + 1, e, "");
    case Unicode(hex) =>
      assert PrintPiece(piece) == ['\\'] + (['u'] + hex);
      AtChar(s, p, '\\', ['u'] + hex);
      AtChar(s, p + 1, 'u', hex);
  }

  /** A piece hides no quote but one behind its backslash. */
  lemma QuoteStep(s: string, p: nat, piece: Piece)
    requires ValidPiece(piece) && At(s, p, PrintPiece(piece))
    ensures FindQuote(s, p) == FindQuote(s, p + |PrintPiece(piece)|)
            || (FindQuote(s, p) == p + 1 < |s| && s[p] == '\\')
  {
    PieceChars(s, p, piece);
    if piece.Unicode? {
      forall k | p <= k < p + 6 ensures s[k] != '"' {
        if k >= p + 2 { assert s[p + 2..p + 6][k - (p + 2)] == s[k]; }
      }
      FindQuoteFrom(s, p, p + 6);
    }
  }

  lemma {:induction false} FindQuoteFrom(s: string, p: nat, q: nat)
    requires p <= q <= |s| && forall k :: p <= k < q ==> s[k] != '"'
    ensures FindQuote(s, p) == FindQuote(s, q)
    decreases q - p
  {
    if p < q { FindQuoteFrom(s, p + 1, q); }
  }

  /** The first quote is the closing one, or one that follows a backslash. */
  lemma {:induction false} QuoteSearch(s: string, p: nat, t: Text)
    requires ValidText(t) && At(s, p, PrintPieces(t)) && Next(s, p + |PrintPieces(t)|, '"')
    ensures var q := FindQuote(s, p); q == p + |PrintPieces(t)| || (p < q < |s| && s[q - 1] == '\\')
    decreases t
  {
    match t
    case Nil =>
    case Cons(piece, rest) =>
      AtSplit(s, p, PrintPiece(piece), PrintPieces(rest));
      QuoteSearch(s, p + |PrintPiece(piece)|, rest);
      QuoteStep(s, p, piece);
  }

  lemma QuotedParts(s: string, pos: nat, t: Text)
    requires At(s, pos, Quoted(t))
    ensures Next(s, pos, '"') && At(s, pos + 1, PrintPieces(t)) && Next(s, pos + 1 + |PrintPieces(t)|, '"')
    ensures |Quoted(t)| == |PrintPieces(t)| + 2
  {
    Enclosed(s, pos, '"', PrintPieces(t), '"');
  }

  /** Fast and careful path agree on every printed string. */
  lemma StringSkip(s: string, pos: nat, t: Text)
    requires ValidText(t) && At(s, pos, Quoted(t))
    ensures SkipString(s, pos) == Ok(pos + |Quoted(t)|) == SkipEscaped(s, pos + 1)
  {
    QuotedParts(s, pos, t);
    EscapedSkip(s, pos + 1, t);
    QuoteSearch(s, pos + 1, t);
  }

  // ---------------------------------------------------------------- numbers

  /** What may follow an element: nothing that would extend a number or make a string a name. */
  predicate Follow(s: string, q: nat) {
    q < |s| ==> !IsDigit(s[q]) && s[q] != '.' && s[q] != 'e' && s[q] != 'E' && s[q] != '-' && s[q] != ':'
  }

  lemma {:induction false} DigitsSkip(s: string, p: nat, d: string)
    requires AllDigits(d) && At(s, p, d) && (p + |d| < |s| ==> !IsDigit(s[p + |d|]))
    ensures SkipDigits(s, p) == p + |d|
    decreases |d|
  {
    if d != "" {
      assert d == [d[0]] + d[1..];
      AtChar(s, p, d[0], d[1..]);
      DigitsSkip(s, p + 1, d[1..]);
    }
  }

  function PlusOffset(v: Value): nat
    requires PlusNumber(v)
  {
    |PrintMantissa(v.number)| + 1
  }

  lemma FirstDigit(s: string, p: nat, d: string)
    requires d != "" && AllDigits(d) && At(s, p, d)
    ensures p < |s| && IsDigit(s[p])
  {
    assert d == [d[0]] + d[1..];
    AtChar(s, p, d[0], d[1..]);
  }

  /** No digit and no point at q. */
  predicate PastMantissa(s: string, q: nat) {
    q < |s| ==> !IsDigit(s[q]) && s[q] != '.'
  }

  lemma FractionSkip(s: string, p: nat, f: string)
    requires AllDigits(f) && At(s, p, PrintFraction(f)) && PastMantissa(s, p + |PrintFraction(f)|)
    ensures SkipDigits(s, SkipChar(s, p, '.')) == p + |PrintFraction(f)|
    ensures p < |s| ==> !IsDigit(s[p])
  {
    if f != "" {
      AtChar(s, p, '.', f);
      DigitsSkip(s, p + 1, f);
    }
  }

  /** An optional minus sign in front of a digit. */
  lemma SignSkip(s: string, p: nat, sign: Sign)
    requires At(s, p, PrintSign(sign)) && !sign.Plus?
    requires var q := p + |PrintSign(sign)|; q < |s| && IsDigit(s[q])
    ensures SkipChar(s, p, '-') == p + |PrintSign(sign)|
  {
    if sign.Minus? { assert ['-'] == ['-'] + ""; AtChar(s, p, '-', ""); }
  }

  lemma MantissaSkip(s: string, pos: nat, n: Number)
    requires ValidNumber(n) && At(s, pos, PrintMantissa(n)) && PastMantissa(s, pos + |PrintMantissa(n)|)
    ensures SkipMantissa(s, pos) == pos + |PrintMantissa(n)|
  {
    var sign, fraction := if n.negative then Minus else NoSign, PrintFraction(n.fraction);
    var p := pos + |PrintSign(sign)|;
    AtSplit(s, pos, PrintSign(sign), n.whole + fraction);
    AtSplit(s, p, n.whole, fraction);
    FirstDigit(s, p, n.whole);
    SignSkip(s, pos, sign);
    FractionSkip(s, p + |n.whole|, n.fraction);
    DigitsSkip(s, p, n.whole);
  }

  predicate PlusExponent(e: Exponent) { e.Exponent? && e.sign.Plus? }

  /** A minus sign is skipped, a plus sign is not: the skipper stops in front of it. */
  lemma ExponentSkip(s: string, q: nat, e: Exponent)
    requires e.Exponent? ==> (e.letter == 'e' || e.letter == 'E') && e.digits != "" && AllDigits(e.digits)
    requires At(s, q, PrintExponent(e)) && Follow(s, q + |PrintExponent(e)|)
    ensures SkipExponent(s, q) == q + if PlusExponent(e) then 1 else |PrintExponent(e)|
    ensures PastMantissa(s, q)
    ensures PlusExponent(e) ==> Next(s, q + 1, '+')
  {
    if e.Exponent? {
      AtChar(s, q, e.letter, PrintSign(e.sign) + e.digits);
      AtSplit(s, q + 1, PrintSign(e.sign), e.digits);
      FirstDigit(s, q + 1 + |PrintSign(e.sign)|, e.digits);
      if e.sign.Plus? { PlusStops(s, q + 1); } else { PowerSkip(s, q + 1, e.sign, e.digits); }
    }
  }

  lemma PlusStops(s: string, p: nat)
    requires At(s, p, ['+'])
    ensures Next(s, p, '+') && SkipDigits(s, SkipChar(s, p, '-')) == p
  {
    assert ['+'] == ['+'] + "";
    AtChar(s, p, '+', "");
  }

  lemma PowerSkip(s: string, p: nat, sign: Sign, digits: string)
    requires !sign.Plus? && digits != "" && AllDigits(digits)
    requires At(s, p, PrintSign(sign)) && At(s, p + |PrintSign(sign)|, digits)
    requires Follow(s, p + |PrintSign(sign)| + |digits|)
    ensures SkipDigits(s, SkipChar(s, p, '-')) == p + |PrintSign(sign)| + |digits|
  {
    FirstDigit(s, p + |PrintSign(sign)|, digits);
    SignSkip(s, p, sign);
    DigitsSkip(s, p + |PrintSign(sign)|, digits);
  }

  lemma NumberSkip(s: string, pos: nat, n: Number)
    requires ValidNumber(n) && At(s, pos, PrintNumber(n)) && Follow(s, pos + |PrintNumber(n)|)
    ensures pos < |s| && (s[pos] == '-' || IsDigit(s[pos]))
    ensures SkipNumber(s, pos)
            == Ok(pos + if PlusExponent(n.exponent) then |PrintMantissa(n)| + 1 else |PrintNumber(n)|)
    ensures PlusExponent(n.exponent) ==> Next(s, pos + |PrintMantissa(n)| + 1, '+')
  {
    AtSplit(s, pos, PrintMantissa(n), PrintExponent(n.exponent));
    ExponentSkip(s, pos + |PrintMantissa(n)|, n.exponent);
    MantissaSkip(s, pos, n);
    NumberStart(s, pos, n);
  }

  lemma NumberStart(s: string, pos: nat, n: Number)
    requires ValidNumber(n) && At(s, pos, PrintMantissa(n))
    ensures pos < |s| && (s[pos] == '-' || IsDigit(s[pos]))
  {
    var t := PrintMantissa(n);
    assert t[0] == '-' || IsDigit(t[0]);
    assert s[pos..pos + |t|][0] == s[pos];
  }

  // ---------------------------------------------------------------- elements

  /** The value can be skipped from this level: it is shallow enough and has no plus sign. */
  predicate Good(v: Value, level: nat) {
    match v
    case Num(_) => !PlusNumber(v)
    case Arr(items) => items.Nil? || (level + 1 <= MAX_DEPTH && GoodItems(items, level + 1))
    case Obj(members) => members.Nil? || (level + 2 <= MAX_DEPTH && GoodMembers(members, level + 2))
    case _ => true
  }

  predicate GoodItems(items: List<Value>, level: nat) {
    match items
    case Nil => true
    case Cons(v, rest) => Good(v, level) && GoodItems(rest, level)
  }

  /** level is the one of the values. */
  predicate GoodMembers(members: List<Member>, level: nat) {
    match members
    case Nil => true
    case Cons(m, rest) => Good(m.value, level) && GoodMembers(rest, level)
  }

  /** In the terms of the values alone: no plus sign, and at most 100 levels. */
  lemma {:induction false} GoodIsShallow(v: Value, level: nat)
    requires level <= MAX_DEPTH
    ensures Good(v, level) <==> !HasPlus(v) && level + Depth(v) <= MAX_DEPTH
    decreases v
  {
    match v
    case Arr(items) => if items.Cons? && level + 1 <= MAX_DEPTH { GoodItemsAreShallow(items, level + 1); }
    case Obj(members) => if members.Cons? && level + 2 <= MAX_DEPTH { GoodMembersAreShallow(members, level + 2); }
    case _ =>
  }

  lemma {:induction false} GoodItemsAreShallow(items: List<Value>, level: nat)
    requires level <= MAX_DEPTH
    ensures GoodItems(items, level) <==> !ItemsHavePlus(items) && level + ItemsDepth(items) <= MAX_DEPTH
    decreases items
  {
    match items
    case Nil =>
    case Cons(v, rest) =>
      GoodIsShallow(v, level);
      GoodItemsAreShallow(rest, level);
  }

  lemma {:induction false} GoodMembersAreShallow(members: List<Member>, level: nat)
    requires level <= MAX_DEPTH
    ensures GoodMembers(members, level) <==> !MembersHavePlus(members) && level + MembersDepth(members) <= MAX_DEPTH
    decreases members
  {
    match members
    case Nil =>
    case Cons(m, rest) =>
      GoodIsShallow(m.value, level);
      GoodMembersAreShallow(rest, level);
  }

  /** A result that the loop over a container refuses: thrown, or left at a plus sign. */
  ghost predicate Refused(s: string, r: Result<nat>) {
    r.Thrown? || Next(s, r.value, '+')
  }

  /** The first character of a printed value tells its type. */
  predicate Starts(v: Value, c: char) {
    match v
    case Null => c == 'n'
    case Bool(b) => c == if b then 't' else 'f'
    case Num(_) => c == '-' || IsDigit(c)
    case Str(_) => c == '"'
    case Arr(_) => c == '['
    case Obj(_) => c == '{'
  }

  lemma FirstChar(s: string, pos: nat, v: Value)
    requires Valid(v) && At(s, pos, Print(v))
    ensures pos < |s| && Starts(v, s[pos])
  {
    match v
    case Num(n) =>
      AtSplit(s, pos, PrintMantissa(n), PrintExponent(n.exponent));
      NumberStart(s, pos, n);
    case _ => assert s[pos + 0] == Print(v)[0];
  }

  lemma ScalarDispatch(s: string, pos: nat, level: nat)
    requires CheckInit(s, pos, level)
    ensures s[pos] == 'n' || s[pos] == 't' ==> SkipElement(s, pos, level) == Ok(pos + 4)
    ensures s[pos] == 'f' ==> SkipElement(s, pos, level) == Ok(pos + 5)
    ensures s[pos] == '-' || IsDigit(s[pos]) ==> SkipElement(s, pos, level) == SkipNumber(s, pos)
    ensures s[pos] == '"' && SkipString(s, pos).Ok? && !Next(s, SkipString(s, pos).value, ':')
            ==> SkipElement(s, pos, level) == SkipString(s, pos)
  {
  }

  lemma NumberElement(s: string, pos: nat, level: nat, n: Number)
    requires ValidNumber(n) && CheckInit(s, pos, level)
    requires At(s, pos, PrintNumber(n)) && Follow(s, pos + |PrintNumber(n)|)
    ensures SkipElement(s, pos, level)
            == Ok(pos + if PlusExponent(n.exponent) then |PrintMantissa(n)| + 1 else |PrintNumber(n)|)
    ensures PlusExponent(n.exponent) ==> Next(s, pos + |PrintMantissa(n)| + 1, '+')
  {
    NumberSkip(s, pos, n);
    ScalarDispatch(s, pos, level);
  }

  lemma StringElement(s: string, pos: nat, level: nat, t: Text)
    requires ValidText(t) && CheckInit(s, pos, level)
    requires At(s, pos, Quoted(t)) && Follow(s, pos + |Quoted(t)|)
    ensures SkipElement(s, pos, level) == Ok(pos + |Quoted(t)|)
  {
    QuotedParts(s, pos, t);
    StringSkip(s, pos, t);
    ScalarDispatch(s, pos, level);
  }

  /** A good value is passed exactly; a number with a plus sign is left at that sign; any other value throws. */
  lemma {:induction false} ElementSkip(s: string, pos: nat, level: nat, v: Value)
    requires Valid(v) && CheckInit(s, pos, level) && At(s, pos, Print(v)) && Follow(s, pos + |Print(v)|)
    ensures Good(v, level) ==> SkipElement(s, pos, level) == Ok(pos + |Print(v)|)
    ensures PlusNumber(v) ==> SkipElement(s, pos, level) == Ok(pos + PlusOffset(v))
    ensures !Good(v, level) && !PlusNumber(v) ==> SkipElement(s, pos, level) == Thrown
    ensures !Good(v, level) ==> Refused(s, SkipElement(s, pos, level))
    decreases v
  {
    FirstChar(s, pos, v);
    match v
    case Null => ScalarDispatch(s, pos, level);
    case Bool(_) => ScalarDispatch(s, pos, level);
    case Num(n) => NumberElement(s, pos, level, n);
    case Str(t) => StringElement(s, pos, level, t);
    case Arr(items) => ArraySkip(s, pos, level, items);
    case Obj(members) => ObjectSkip(s, pos, level, members);
  }

  lemma {:induction false} ArraySkip(s: string, pos: nat, level: nat, items: List<Value>)
    requires ValidItems(items) && CheckInit(s, pos, level) && At(s, pos, Print(Arr(items)))
    ensures SkipArray(s, pos, level)
            == if Good(Arr(items), level) then Ok(pos + |Print(Arr(items))|) else Thrown
    decreases items, 2
  {
    Enclosed(s, pos, '[', PrintItems(items), ']');
    if items.Cons? {
      FirstItem(s, pos + 1, items);
      ItemsSkip(s, pos + 1, level, items, pos + 1 + |PrintItems(items)|);
    }
  }

  /** The text of a nonempty list of values starts with a value, so with no bracket that closes. */
  lemma FirstItem(s: string, pos: nat, items: List<Value>)
    requires items.Cons? && ValidItems(items) && At(s, pos, PrintItems(items))
    ensures At(s, pos, Print(items.head)) && pos < |s| && s[pos] != ']' && s[pos] != '}' && Print(items.head) != ""
    ensures items.tail.Cons? ==> Next(s, pos + |Print(items.head)|, ',')
                                 && At(s, pos + |Print(items.head)| + 1, PrintItems(items.tail))
  {
    var rest := if items.tail.Nil? then "" else [','] + PrintItems(items.tail);
    AtSplit(s, pos, Print(items.head), rest);
    FirstChar(s, pos, items.head);
    if items.tail.Cons? { AtChar(s, pos + |Print(items.head)|, ',', PrintItems(items.tail)); }
  }

  lemma {:induction false} ItemsSkip(s: string, pos: nat, level: nat, items: List<Value>, end: nat)
    requires items.Cons? && ValidItems(items) && level <= MAX_DEPTH
    requires At(s, pos, PrintItems(items)) && end == pos + |PrintItems(items)| && Next(s, end, ']')
    ensures SkipItems(s, pos, level)
            == if level + 1 <= MAX_DEPTH && GoodItems(items, level + 1) then Ok(end + 1) else Thrown
    decreases items, 1
  {
    if level + 1 <= MAX_DEPTH {
      var next := ItemFront(s, pos, level + 1, items, end);
      if Good(items.head, level + 1) {
        ItemsNext(s, pos, level, next);
        if items.tail.Cons? { ItemsSkip(s, next + 1, level, items.tail, end); }
      } else {
        ItemsRefused(s, pos, level);
      }
    }
  }

  /** The first item is skipped or refused; behind it stands a comma and the rest, or the bracket. */
  lemma {:induction false} ItemFront(s: string, pos: nat, level: nat, items: List<Value>, end: nat) returns (next: nat)
    requires items.Cons? && ValidItems(items) && level <= MAX_DEPTH
    requires At(s, pos, PrintItems(items)) && end == pos + |PrintItems(items)| && Next(s, end, ']')
    ensures pos < next < |s|
    ensures Good(items.head, level) ==> SkipElement(s, pos, level) == Ok(next)
    ensures !Good(items.head, level) ==> Refused(s, SkipElement(s, pos, level))
    ensures items.tail.Nil? ==> next == end
    ensures items.tail.Cons? ==> Next(s, next, ',') && At(s, next + 1, PrintItems(items.tail))
                                 && end == next + 1 + |PrintItems(items.tail)|
    decreases items, 0
  {
    FirstItem(s, pos, items);
    ItemsLength(items);
    next := pos + |Print(items.head)|;
    ElementSkip(s, pos, level, items.head);
  }

  lemma ItemsLength(items: List<Value>)
    requires items.Cons?
    ensures |PrintItems(items)| == |Print(items.head)| + if items.tail.Nil? then 0 else 1 + |PrintItems(items.tail)|
  {
  }

  lemma ItemsNext(s: string, pos: nat, level: nat, next: nat)
    requires CheckInit(s, pos, level + 1) && next < |s| && SkipElement(s, pos, level + 1) == Ok(next)
    ensures s[next] == ',' ==> SkipItems(s, pos, level) == SkipItems(s, next + 1, level)
    ensures s[next] == ']' ==> SkipItems(s, pos, level) == Ok(next + 1)
  {
  }

  lemma ItemsRefused(s: string, pos: nat, level: nat)
    requires CheckInit(s, pos, level + 1) && Refused(s, SkipElement(s, pos, level + 1))
    ensures SkipItems(s, pos, level) == Thrown
  {
  }

  /** A member in front of anything that may follow a value. */
  lemma {:induction false} PairSkip(s: string, pos: nat, level: nat, m: Member)
    requires ValidText(m.name) && Valid(m.value) && level <= MAX_DEPTH
    requires At(s, pos, PrintMember(m)) && Follow(s, pos + |PrintMember(m)|)
    ensures level + 1 <= MAX_DEPTH && Good(m.value, level + 1)
            ==> SkipNameValuePair(s, pos, level) == Ok(pos + |PrintMember(m)|)
    ensures !(level + 1 <= MAX_DEPTH && Good(m.value, level + 1)) ==> Refused(s, SkipNameValuePair(s, pos, level))
    decreases m
  {
    var p := pos + |Quoted(m.name)| + 1;
    MemberParts(s, pos, m);
    FirstChar(s, p, m.value);
    PairUnfold(s, pos, level, m);
    if level + 1 <= MAX_DEPTH {
      ElementSkip(s, p, level + 1, m.value);
    }
  }

  lemma PairUnfold(s: string, pos: nat, level: nat, m: Member)
    requires ValidText(m.name) && level <= MAX_DEPTH && At(s, pos, PrintMember(m))
    requires pos + |Quoted(m.name)| + 1 < |s|
    ensures var p := pos + |Quoted(m.name)| + 1;
            SkipNameValuePair(s, pos, level) == if level + 1 <= MAX_DEPTH then SkipElement(s, p, level + 1) else Thrown
  {
    MemberParts(s, pos, m);
    StringSkip(s, pos, m.name);
  }

  lemma MemberParts(s: string, pos: nat, m: Member)
    requires At(s, pos, PrintMember(m))
    ensures At(s, pos, Quoted(m.name)) && Next(s, pos + |Quoted(m.name)|, ':')
    ensures At(s, pos + |Quoted(m.name)| + 1, Print(m.value))
    ensures |PrintMember(m)| == |Quoted(m.name)| + 1 + |Print(m.value)|
  {
    AtSeparated(s, pos, Quoted(m.name), ':', Print(m.value));
  }

  lemma MemberStart(s: string, pos: nat, m: Member)
    requires At(s, pos, PrintMember(m))
    ensures Next(s, pos, '"')
  {
    MemberParts(s, pos, m);
    QuotedParts(s, pos, m.name);
  }

  lemma FirstMember(s: string, pos: nat, members: List<Member>)
    requires members.Cons? && At(s, pos, PrintMembers(members))
    ensures At(s, pos, PrintMember(members.head)) && Next(s, pos, '"')
    ensures members.tail.Cons? ==> Next(s, pos + |PrintMember(members.head)|, ',')
                                   && At(s, pos + |PrintMember(members.head)| + 1, PrintMembers(members.tail))
  {
    var m, text := members.head, PrintMember(members.head);
    if members.tail.Cons? {
      AtSeparated(s, pos, text, ',', PrintMembers(members.tail));
    } else {
      assert PrintMembers(members) == text + "";
      AtSplit(s, pos, text, "");
    }
    MemberStart(s, pos, m);
  }

  lemma {:induction false} ObjectSkip(s: string, pos: nat, level: nat, members: List<Member>)
    requires ValidMembers(members) && CheckInit(s, pos, level) && At(s, pos, Print(Obj(members)))
    ensures SkipObject(s, pos, level)
            == if Good(Obj(members), level) then Ok(pos + |Print(Obj(members))|) else Thrown
    decreases members, 2
  {
    Enclosed(s, pos, '{', PrintMembers(members), '}');
    if members.Cons? {
      FirstMember(s, pos + 1, members);
      MembersSkip(s, pos + 1, level, members, pos + 1 + |PrintMembers(members)|);
    }
  }

  lemma {:induction false} MembersSkip(s: string, pos: nat, level: nat, members: List<Member>, end: nat)
    requires members.Cons? && ValidMembers(members) && level <= MAX_DEPTH
    requires At(s, pos, PrintMembers(members)) && end == pos + |PrintMembers(members)| && Next(s, end, '}')
    ensures SkipMembers(s, pos, level)
            == if level + 2 <= MAX_DEPTH && GoodMembers(members, level + 2) then Ok(end + 1) else Thrown
    decreases members, 1
  {
    if level + 1 <= MAX_DEPTH {
      var next := MemberFront(s, pos, level, members, end);
      if level + 2 <= MAX_DEPTH && Good(members.head.value, level + 2) {
        MembersNext(s, pos, level, next);
        if members.tail.Cons? { MembersSkip(s, next + 1, level, members.tail, end); }
      } else {
        MembersRefused(s, pos, level);
      }
    }
  }

  /** The first member is skipped or refused; behind it stands a comma and the rest, or the bracket. */
  lemma {:induction false} MemberFront(s: string, pos: nat, level: nat, members: List<Member>, end: nat)
    returns (next: nat)
    requires members.Cons? && ValidMembers(members) && level + 1 <= MAX_DEPTH
    requires At(s, pos, PrintMembers(members)) && end == pos + |PrintMembers(members)| && Next(s, end, '}')
    ensures pos < next < |s|
    ensures level + 2 <= MAX_DEPTH && Good(members.head.value, level + 2)
            ==> SkipNameValuePair(s, pos, level + 1) == Ok(next)
    ensures !(level + 2 <= MAX_DEPTH && Good(members.head.value, level + 2))
            ==> Refused(s, SkipNameValuePair(s, pos, level + 1))
    ensures members.tail.Nil? ==> next == end
    ensures members.tail.Cons? ==> Next(s, next, ',') && At(s, next + 1, PrintMembers(members.tail))
                                   && end == next + 1 + |PrintMembers(members.tail)|
    decreases members, 0
  {
    FirstMember(s, pos, members);
    MembersLength(members);
    next := pos + |PrintMember(members.head)|;
    PairSkip(s, pos, level + 1, members.head);
  }

  lemma MembersLength(members: List<Member>)
    requires members.Cons?
    ensures |PrintMembers(members)|
            == |PrintMember(members.head)| + if members.tail.Nil? then 0 else 1 + |PrintMembers(members.tail)|
  {
  }

  lemma MembersNext(s: string, pos: nat, level: nat, next: nat)
    requires CheckInit(s, pos, level + 1) && next < |s| && SkipNameValuePair(s, pos, level + 1) == Ok(next)
    ensures s[next] == ',' ==> SkipMembers(s, pos, level) == SkipMembers(s, next + 1, level)
    ensures s[next] == '}' ==> SkipMembers(s, pos, level) == Ok(next + 1)
  {
  }

  lemma MembersRefused(s: string, pos: nat, level: nat)
    requires CheckInit(s, pos, level + 1) && Refused(s, SkipNameValuePair(s, pos, level + 1))
    ensures SkipMembers(s, pos, level) == Thrown
  {
  }

  /** The main result: at the front of any text, a printed value is passed exactly if and only if it has no plus sign
      in an exponent and nests at most 100 levels deep; arrays count one level, objects two. */
  lemma SkipUndoesPrint(v: Value, suffix: string)
    requires Valid(v) && Follow(Print(v) + suffix, |Print(v)|)
    ensures CheckInit(Print(v) + suffix, 0, 0)
    ensures SkipElement(Print(v) + suffix, 0, 0) == Ok(|Print(v)|) <==> !HasPlus(v) && Depth(v) <= MAX_DEPTH
    ensures !HasPlus(v) && Depth(v) > MAX_DEPTH ==> SkipElement(Print(v) + suffix, 0, 0) == Thrown
  {
    var s := Print(v) + suffix;
    assert At(s, 0, Print(v));
    FirstChar(s, 0, v);
    ElementSkip(s, 0, 0, v);
    GoodIsShallow(v, 0);
    if PlusNumber(v) { assert |Print(v)| > PlusOffset(v); }
  }
}
