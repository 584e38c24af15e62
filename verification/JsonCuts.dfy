/** What the skippers accept, on every text: where the commas, colons and closing brackets have to be. */
module JsonCuts {
  import opened JsonText
  import opened JsonSkip
  import opened JsonAccess

  /** A list of cuts p0 < p1 < ... < pn with something skippable between each two; `item` tells what. */
  ghost predicate Cut(s: string, cuts: seq<nat>, first: nat, close: char, item: (nat, nat) -> bool) {
    && |cuts| >= 2 && cuts[0] == first
    && (forall i :: 0 <= i < |cuts| - 1 ==> item(cuts[i], cuts[i + 1]))
    && (forall i :: 0 < i < |cuts| - 1 ==> Next(s, cuts[i], ','))
    && Next(s, cuts[|cuts| - 1], close)
  }

  lemma CutCons(s: string, p: nat, cuts: seq<nat>, first: nat, close: char, item: (nat, nat) -> bool)
    requires Cut(s, cuts, first, close, item) && item(p, first) && Next(s, first, ',')
    ensures Cut(s, [p] + cuts, p, close, item)
  {
    var all := [p] + cuts;
    forall i | 0 <= i < |all| - 1 ensures item(all[i], all[i + 1]) {
      if i > 0 { assert all[i] == cuts[i - 1] && all[i + 1] == cuts[i]; }
    }
    forall i | 0 < i < |all| - 1 ensures Next(s, all[i], ',') { assert all[i] == cuts[i - 1]; }
    assert all[|all| - 1] == cuts[|cuts| - 1];
  }

  lemma CutTail(s: string, cuts: seq<nat>, first: nat, close: char, item: (nat, nat) -> bool)
    requires Cut(s, cuts, first, close, item) && |cuts| > 2
    ensures item(first, cuts[1]) && Next(s, cuts[1], ',') && Cut(s, cuts[1..], cuts[1], close, item)
  {
    var rest := cuts[1..];
    forall i | 0 <= i < |rest| - 1 ensures item(rest[i], rest[i + 1]) { assert rest[i] == cuts[i + 1] && rest[i + 1] == cuts[i + 2]; }
    forall i | 0 < i < |rest| - 1 ensures Next(s, rest[i], ',') { assert rest[i] == cuts[i + 1]; }
  }

  // ---------------------------------------------------------------- arrays

  /** One element from behind p up to q. */
  predicate IsItem(s: string, level: nat, p: nat, q: nat) {
    CheckInit(s, p + 1, level + 1) && SkipElement(s, p + 1, level + 1) == Ok(q) && q < |s|
  }

  ghost function Item(s: string, level: nat): (nat, nat) -> bool {
    (p: nat, q: nat) => IsItem(s, level, p, q)
  }

  /** An accepted list of items can be cut, */
  lemma {:induction false} ItemsCut(s: string, p: nat, level: nat, q: nat) returns (cuts: seq<nat>)
    requires level <= MAX_DEPTH && SkipItems(s, p + 1, level) == Ok(q)
    ensures Cut(s, cuts, p, ']', Item(s, level)) && q == cuts[|cuts| - 1] + 1
    decreases |s| - p
  {
    var next := SkipElement(s, p + 1, level + 1).value;
    assert Item(s, level)(p, next);
    if s[next] == ',' {
      var rest := ItemsCut(s, next, level, q);
      CutCons(s, p, rest, next, ']', Item(s, level));
      cuts := [p] + rest;
    } else {
      cuts := [p, next];
    }
  }

  /** and a list that can be cut is accepted. */
  lemma {:induction false} CutItems(s: string, p: nat, level: nat, cuts: seq<nat>)
    requires level <= MAX_DEPTH && Cut(s, cuts, p, ']', Item(s, level))
    ensures SkipItems(s, p + 1, level) == Ok(cuts[|cuts| - 1] + 1)
    decreases |cuts|
  {
    assert Item(s, level)(cuts[0], cuts[1]);
    if |cuts| > 2 {
      CutTail(s, cuts, p, ']', Item(s, level));
      CutItems(s, cuts[1], level, cuts[1..]);
    }
  }

  /** On every text, an array is skipped exactly if it is empty, or elements one level deeper with commas between them fill the
      place up to a closing bracket. */
  lemma ArrayAccepted(s: string, pos: nat, level: nat, q: nat)
    requires CheckInit(s, pos, level) && s[pos] == '['
    ensures SkipElement(s, pos, level) == Ok(q)
            <==> if Next(s, pos + 1, ']') then q == pos + 2
                 else exists cuts :: Cut(s, cuts, pos, ']', Item(s, level)) && q == cuts[|cuts| - 1] + 1
  {
    assert SkipElement(s, pos, level) == SkipArray(s, pos, level);
    if !Next(s, pos + 1, ']') {
      if SkipElement(s, pos, level) == Ok(q) {
        var cuts := ItemsCut(s, pos, level, q);
      }
      if cuts :| Cut(s, cuts, pos, ']', Item(s, level)) && q == cuts[|cuts| - 1] + 1 {
        CutItems(s, pos, level, cuts);
        assert Item(s, level)(cuts[0], cuts[1]);
      }
    }
  }

  // ---------------------------------------------------------------- objects

  /** A name, a colon and an element from behind p up to q. */
  predicate IsMember(s: string, level: nat, p: nat, q: nat) {
    && CheckInit(s, p + 1, level + 1)
    && var name := SkipString(s, p + 1);
       name.Ok? && Next(s, name.value, ':') && CheckInit(s, name.value + 1, level + 2)
       && SkipElement(s, name.value + 1, level + 2) == Ok(q) && q < |s|
  }

  ghost function MemberOf(s: string, level: nat): (nat, nat) -> bool {
    (p: nat, q: nat) => IsMember(s, level, p, q)
  }

  lemma {:induction false} MembersCut(s: string, p: nat, level: nat, q: nat) returns (cuts: seq<nat>)
    requires level <= MAX_DEPTH && SkipMembers(s, p + 1, level) == Ok(q)
    ensures Cut(s, cuts, p, '}', MemberOf(s, level)) && q == cuts[|cuts| - 1] + 1
    decreases |s| - p
  {
    var next := SkipNameValuePair(s, p + 1, level + 1).value;
    assert MemberOf(s, level)(p, next);
    if s[next] == ',' {
      var rest := MembersCut(s, next, level, q);
      CutCons(s, p, rest, next, '}', MemberOf(s, level));
      cuts := [p] + rest;
    } else {
      cuts := [p, next];
    }
  }

  lemma {:induction false} CutMembers(s: string, p: nat, level: nat, cuts: seq<nat>)
    requires level <= MAX_DEPTH && Cut(s, cuts, p, '}', MemberOf(s, level))
    ensures SkipMembers(s, p + 1, level) == Ok(cuts[|cuts| - 1] + 1)
    decreases |cuts|
  {
    assert MemberOf(s, level)(cuts[0], cuts[1]);
    if |cuts| > 2 {
      CutTail(s, cuts, p, '}', MemberOf(s, level));
      CutMembers(s, cuts[1], level, cuts[1..]);
    }
  }

  /** On every text, an object is skipped exactly if it is empty, or names, colons and elements two levels deeper with commas
      between them fill the place up to a closing brace. */
  lemma ObjectAccepted(s: string, pos: nat, level: nat, q: nat)
    requires CheckInit(s, pos, level) && s[pos] == '{'
    ensures SkipElement(s, pos, level) == Ok(q)
            <==> if Next(s, pos + 1, '}') then q == pos + 2
                 else exists cuts :: Cut(s, cuts, pos, '}', MemberOf(s, level)) && q == cuts[|cuts| - 1] + 1
  {
    assert SkipElement(s, pos, level) == SkipObject(s, pos, level);
    if !Next(s, pos + 1, '}') {
      if SkipElement(s, pos, level) == Ok(q) {
        var cuts := MembersCut(s, pos, level, q);
      }
      if cuts :| Cut(s, cuts, pos, '}', MemberOf(s, level)) && q == cuts[|cuts| - 1] + 1 {
        CutMembers(s, pos, level, cuts);
        assert MemberOf(s, level)(cuts[0], cuts[1]);
      }
    }
  }

  // ---------------------------------------------------------------- strings and other elements

  lemma {:induction false} EscapedEnds(s: string, pos: nat)
    ensures SkipEscaped(s, pos).Ok? ==> Next(s, SkipEscaped(s, pos).value - 1, '"')
    decreases |s| - pos
  {
    if pos < |s| && s[pos] != '"' {
      if s[pos] != '\\' {
        EscapedEnds(s, pos + 1);
      } else if pos + 1 < |s| {
        EscapedEnds(s, pos + if s[pos + 1] == 'u' then 6 else 2);
      }
    }
  }

  /** The first quotation mark behind pos is at q and has no backslash in front. */
  predicate EndsPlainly(s: string, pos: nat, q: nat) {
    pos < q && Next(s, q, '"') && s[q - 1] != '\\' && forall i :: pos < i < q ==> s[i] != '"'
  }

  /** A skipped string begins and ends with a quotation mark, and one that no backslash precedes ends it. */
  lemma StringAccepted(s: string, pos: nat)
    ensures SkipString(s, pos).Ok? ==> Next(s, pos, '"') && pos < SkipString(s, pos).value - 1
                                       && Next(s, SkipString(s, pos).value - 1, '"')
    ensures forall q: nat :: Next(s, pos, '"') && EndsPlainly(s, pos, q) ==> SkipString(s, pos) == Ok(q + 1)
  {
    EscapedEnds(s, pos + 1);
  }

  /** The first characters that begin an element; all others are refused. */
  lemma ElementStarts(s: string, pos: nat, level: nat)
    requires CheckInit(s, pos, level) && s[pos] !in "{[tfn-0123456789\""
    ensures SkipElement(s, pos, level) == Thrown
  {
    assert forall i :: 0 <= i < 17 ==> s[pos] != "{[tfn-0123456789\""[i];
  }

  /** Only arrays and objects can be iterated; on everything else beginning to, counting and indexing throw. */
  lemma OnlyContainersIterate(s: string, pos: nat, level: nat, n: nat)
    requires CheckInit(s, pos, level) && s[pos] != '[' && s[pos] != '{'
    ensures Begin(s, pos, level) == Thrown && SizeOf(s, pos, level) == Thrown && IndexOf(s, pos, level, n) == Thrown
  {
  }
}
