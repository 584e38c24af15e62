/** Strings written as JSON, character by character, and read back. */
module JsonWritten {
  import opened JsonText
  import opened JsonSkip
  import opened JsonPrinted
  import opened JsonNames
  import opened JsonAccess

  /** Section 7 of RFC 8259: the short escapes, the characters that may stand for themselves, and the readers' addition that
      any other character may have a backslash in front. */
  predicate Stands(form: string, c: char) {
    || (form == [c] && c != '"' && c != '\\')
    || (form == ['\\', c] && c !in {'b', 'f', 'n', 'r', 't', 'u'})
    || (form == ['\\', 'b'] && c as int == 8)
    || (form == ['\\', 't'] && c as int == 9)
    || (form == ['\\', 'n'] && c as int == 10)
    || (form == ['\\', 'f'] && c as int == 12)
    || (form == ['\\', 'r'] && c as int == 13)
  }

  function Joined(forms: seq<string>): string {
    if forms == [] then "" else forms[0] + Joined(forms[1..])
  }

  predicate StandFor(forms: seq<string>, w: string) {
    |forms| == |w| && forall i :: 0 <= i < |w| ==> Stands(forms[i], w[i])
  }

  lemma FormIsRead(s: string, p: nat, form: string, c: char, decode: string -> Result<string>)
    requires Stands(form, c) && At(s, p, form)
    ensures Unescape(s, p, decode) == Prepend([c], Unescape(s, p + |form|, decode))
  {
    assert At(s, p, [form[0]] + form[1..]) by { assert form == [form[0]] + form[1..]; }
    AtChar(s, p, form[0], form[1..]);
    if |form| == 2 {
      assert form[1..] == [form[1]] + "";
      AtChar(s, p + 1, form[1], "");
    }
  }

  lemma {:induction false} FormsAreRead(s: string, p: nat, forms: seq<string>, w: string, decode: string -> Result<string>)
    requires StandFor(forms, w) && At(s, p, Joined(forms)) && Next(s, p + |Joined(forms)|, '"')
    ensures Unescape(s, p, decode) == Ok(w)
    decreases |w|
  {
    if w != "" {
      AtSplit(s, p, forms[0], Joined(forms[1..]));
      FormIsRead(s, p, forms[0], w[0], decode);
      FormsAreRead(s, p + |forms[0]|, forms[1..], w[1..], decode);
      assert w == [w[0]] + w[1..];
    }
  }

  /** Whatever way is chosen to write each character, the string between the quotes is read back. */
  lemma StringIsRead(s: string, pos: nat, forms: seq<string>, w: string, decode: string -> Result<string>)
    requires StandFor(forms, w) && At(s, pos, ['"'] + Joined(forms) + ['"'])
    ensures pos < |s| && GetString(s, pos, decode) == Ok(w)
  {
    Enclosed(s, pos, '"', Joined(forms), '"');
    FormsAreRead(s, pos + 1, forms, w, decode);
  }

  // ---------------------------------------------------------------- one writer

  /** Quotation mark, backslash and the control characters with a short escape are escaped, all others written plainly. */
  function PieceOf(c: char): Piece {
    if c == '"' || c == '\\' then Escape(c)
    else if c as int == 8 then Escape('b')
    else if c as int == 9 then Escape('t')
    else if c as int == 10 then Escape('n')
    else if c as int == 12 then Escape('f')
    else if c as int == 13 then Escape('r')
    else Plain(c)
  }

  function TextOf(w: string): Text {
    if w == "" then Nil else Cons(PieceOf(w[0]), TextOf(w[1..]))
  }

  /** Every string can be written, and what is written means that string. */
  lemma {:induction false} WrittenMeans(w: string, decode: string -> Result<string>)
    ensures ValidText(TextOf(w)) && Decoded(TextOf(w), decode) == Ok(w)
    decreases |w|
  {
    if w != "" {
      WrittenMeans(w[1..], decode);
      assert w == [w[0]] + w[1..];
    }
  }

  /** Round trip: a string written and read again is the same. */
  lemma WrittenIsRead(s: string, pos: nat, w: string, decode: string -> Result<string>)
    requires At(s, pos, Quoted(TextOf(w)))
    ensures pos < |s| && GetString(s, pos, decode) == Ok(w)
  {
    WrittenMeans(w, decode);
    StringOfPrinted(s, pos, TextOf(w), decode);
  }

  /** The comparison with a key succeeds exactly if the name was written from the key. */
  lemma WrittenNameIs(s: string, pos: nat, name: string, key: string, decode: string -> Result<string>)
    requires At(s, pos, Quoted(TextOf(name)))
    ensures pos < |s| && NameIs(s, pos, key, decode) == Ok(name == key)
  {
    WrittenMeans(name, decode);
    StringOfPrinted(s, pos, TextOf(name), decode);
    NameIsUnescaped(s, pos, key, decode);
  }

  /** The members are called by these names, each written as above. */
  predicate Called(members: List<Member>, names: seq<string>) {
    Length(members) == |names| && forall i :: 0 <= i < |names| ==> Nth(members, i).name == TextOf(names[i])
  }

  /** The search passes member i: it has another name and a good value. */
  predicate PassedBy(members: List<Member>, names: seq<string>, key: string, level: nat, i: nat)
    requires Called(members, names) && i < |names|
  {
    names[i] != key && level + 2 <= MAX_DEPTH && Good(Nth(members, i).value, level + 2)
  }

  /** The search for a key in an object with written names: it ends at member j if and only if that is the first one called by
      the key and all values before it are good. */
  lemma KeyIsFound(s: string, pos: nat, level: nat, members: List<Member>, names: seq<string>, key: string,
                   decode: string -> Result<string>, j: nat)
    requires ValidMembers(members) && CheckInit(s, pos, level) && At(s, pos, Print(Obj(members)))
    requires Called(members, names) && j < |names|
    ensures SearchOf(s, pos, level, key, decode) == Ok(Element(MemberStarts(pos + 1, members)[j]))
            <==> level + 1 <= MAX_DEPTH && names[j] == key
                 && forall i :: 0 <= i < j ==> PassedBy(members, names, key, level, i)
  {
    SearchFindsFirst(s, pos, level, members, key, decode, j);
    var same, outs := SameNames(members, key, decode), MemberOutcomes(members, level + 1);
    forall i | 0 <= i < |names|
      ensures same[i] == Ok(names[i] == key)
      ensures same[i] == Ok(false) && outs[i].Passed? <==> PassedBy(members, names, key, level, i)
    {
      WrittenMeans(names[i], decode);
    }
    assert (forall i :: 0 <= i < j ==> same[i] == Ok(false) && outs[i].Passed?)
      <==> (forall i :: 0 <= i < j ==> PassedBy(members, names, key, level, i));
  }
}
