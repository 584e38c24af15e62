/** JSON values and their compact text: no white space, as the reader expects it. */
module JsonText {
  import opened Decimal

  datatype List<T> = Nil | Cons(head: T, tail: List<T>)

  function Length<T>(xs: List<T>): nat {
    match xs
    case Nil => 0
    case Cons(_, tail) => 1 + Length(tail)
  }

  function Nth<T>(xs: List<T>, i: nat): T
    requires i < Length(xs)
  {
    if i == 0 then xs.head else Nth(xs.tail, i - 1)
  }

  /** A piece of a string: a character as it is, a backslash and a character, or \u and four hexadecimal digits. */
  datatype Piece = Plain(c: char) | Escape(e: char) | Unicode(hex: string)

  type Text = List<Piece>

  datatype Sign = NoSign | Plus | Minus

  datatype Exponent = NoExponent | Exponent(letter: char, sign: Sign, digits: string)

  /** A missing fraction is the empty one. */
  datatype Number = Number(negative: bool, whole: string, fraction: string, exponent: Exponent)

  datatype Value =
    | Null
    | Bool(b: bool)
    | Num(number: Number)
    | Str(text: Text)
    | Arr(items: List<Value>)
    | Obj(members: List<Member>)

  datatype Member = Member(name: Text, value: Value)

  // ---------------------------------------------------------------- validity (RFC 8259)

  predicate IsEscape(c: char) {
    c == '"' || c == '\\' || c == '/' || c == 'b' || c == 'f' || c == 'n' || c == 'r' || c == 't'
  }

  predicate ValidPiece(p: Piece) {
    match p
    case Plain(c) => c != '"' && c != '\\'
    case Escape(e) => IsEscape(e)
    case Unicode(hex) => |hex| == 4 && forall i :: 0 <= i < 4 ==> IsHexDigit(hex[i])
  }

  predicate ValidText(t: Text) {
    match t
    case Nil => true
    case Cons(p, rest) => ValidPiece(p) && ValidText(rest)
  }

  predicate ValidNumber(n: Number) {
    && n.whole != "" && AllDigits(n.whole) && AllDigits(n.fraction)
    && (n.exponent.Exponent? ==>
          (n.exponent.letter == 'e' || n.exponent.letter == 'E') && n.exponent.digits != "" && AllDigits(n.exponent.digits))
  }

  predicate Valid(v: Value) {
    match v
    case Null => true
    case Bool(_) => true
    case Num(n) => ValidNumber(n)
    case Str(t) => ValidText(t)
    case Arr(items) => ValidItems(items)
    case Obj(members) => ValidMembers(members)
  }

  predicate ValidItems(items: List<Value>) {
    match items
    case Nil => true
    case Cons(v, rest) => Valid(v) && ValidItems(rest)
  }

  predicate ValidMembers(members: List<Member>) {
    match members
    case Nil => true
    case Cons(m, rest) => ValidText(m.name) && Valid(m.value) && ValidMembers(rest)
  }

  // ---------------------------------------------------------------- printing

  function PrintPiece(p: Piece): string {
    match p
    case Plain(c) => [c]
    case Escape(e) => ['\\', e]
    case Unicode(hex) => ['\\', 'u'] + hex
  }

  function PrintPieces(t: Text): string {
    match t
    case Nil => ""
    case Cons(p, rest) => PrintPiece(p) + PrintPieces(rest)
  }

  function Quoted(t: Text): string {
    ['"'] + PrintPieces(t) + ['"']
  }

  function PrintSign(sign: Sign): string {
    match sign
    case NoSign => ""
    case Plus => ['+']
    case Minus => ['-']
  }

  function PrintExponent(e: Exponent): string {
    match e
    case NoExponent => ""
    case Exponent(letter, sign, digits) => [letter] + (PrintSign(sign) + digits)
  }

  function PrintFraction(f: string): string {
    if f == "" then "" else ['.'] + f
  }

  function PrintMantissa(n: Number): string {
    PrintSign(if n.negative then Minus else NoSign) + (n.whole + PrintFraction(n.fraction))
  }

  function PrintNumber(n: Number): string {
    PrintMantissa(n) + PrintExponent(n.exponent)
  }

  function Print(v: Value): string {
    match v
    case Null => ['n', 'u', 'l', 'l']
    case Bool(b) => if b then ['t', 'r', 'u', 'e'] else ['f', 'a', 'l', 's', 'e']
    case Num(n) => PrintNumber(n)
    case Str(t) => Quoted(t)
    case Arr(items) => ['['] + PrintItems(items) + [']']
    case Obj(members) => ['{'] + PrintMembers(members) + ['}']
  }

  function PrintItems(items: List<Value>): string {
    match items
    case Nil => ""
    case Cons(v, rest) => Print(v) + (if rest.Nil? then "" else [','] + PrintItems(rest))
  }

  function PrintMember(m: Member): string {
    Quoted(m.name) + ([':'] + Print(m.value))
  }

  function PrintMembers(members: List<Member>): string {
    match members
    case Nil => ""
    case Cons(m, rest) => PrintMember(m) + (if rest.Nil? then "" else [','] + PrintMembers(rest))
  }

  // ---------------------------------------------------------------- depth and plus signs

  function Max(a: nat, b: nat): nat { if a < b then b else a }

  /** Levels below the value: a nonempty array costs one, a nonempty object two. */
  function Depth(v: Value): nat {
    match v
    case Arr(items) => if items.Nil? then 0 else 1 + ItemsDepth(items)
    case Obj(members) => if members.Nil? then 0 else 2 + MembersDepth(members)
    case _ => 0
  }

  function ItemsDepth(items: List<Value>): nat {
    match items
    case Nil => 0
    case Cons(v, rest) => Max(Depth(v), ItemsDepth(rest))
  }

  function MembersDepth(members: List<Member>): nat {
    match members
    case Nil => 0
    case Cons(m, rest) => Max(Depth(m.value), MembersDepth(rest))
  }

  predicate PlusNumber(v: Value) {
    v.Num? && v.number.exponent.Exponent? && v.number.exponent.sign.Plus?
  }

  /** Some number inside is written with a plus sign in its exponent. */
  predicate HasPlus(v: Value) {
    match v
    case Num(_) => PlusNumber(v)
    case Arr(items) => ItemsHavePlus(items)
    case Obj(members) => MembersHavePlus(members)
    case _ => false
  }

  predicate ItemsHavePlus(items: List<Value>) {
    match items
    case Nil => false
    case Cons(v, rest) => HasPlus(v) || ItemsHavePlus(rest)
  }

  predicate MembersHavePlus(members: List<Member>) {
    match members
    case Nil => false
    case Cons(m, rest) => HasPlus(m.value) || MembersHavePlus(rest)
  }
}
