/** The types the reader finds are those of the printed values. */
module JsonTypes {
  import opened JsonText
  import opened JsonSkip
  import opened JsonPrinted

  function TypeOf(v: Value): ElementType {
    match v
    case Null => NullType
    case Bool(_) => BoolType
    case Num(_) => NumberType
    case Str(_) => StringType
    case Arr(_) => ArrayType
    case Obj(_) => ObjectType
  }

  /** The type of a printed value is found, whatever follows it; only a string before a colon is taken for a name. */
  lemma TypeOfPrinted(s: string, pos: nat, v: Value)
    requires Valid(v) && At(s, pos, Print(v))
    ensures pos < |s|
    ensures GetType(s, pos) == Ok(if v.Str? && Next(s, pos + |Print(v)|, ':') then PairType else TypeOf(v))
  {
    FirstChar(s, pos, v);
    if v.Str? { StringSkip(s, pos, v.text); }
  }

  /** A printed member is a pair of a name and a value. */
  lemma TypeOfMember(s: string, pos: nat, m: Member)
    requires ValidText(m.name) && At(s, pos, PrintMember(m))
    ensures pos < |s| && GetType(s, pos) == Ok(PairType)
  {
    MemberParts(s, pos, m);
    TypeOfPrinted(s, pos, Str(m.name));
  }
}
