/** Iteration over arrays and objects, and the lookups built on it. An iterator is the position of an element, or null
    behind the last one. */
module JsonAccess {
  import opened JsonText
  import opened JsonSkip
  import opened JsonPrinted
  import opened JsonReader
  import opened JsonNames

  datatype Iterator = Null | Element(pos: nat)

  // ---------------------------------------------------------------- the iterator

  /** Building the end iterator checks the level. */
  function End(level: nat): Result<Iterator> {
    if level + 1 <= MAX_DEPTH then Ok(Iterator.Null) else Thrown
  }

  function Begin(s: string, pos: nat, level: nat): (r: Result<Iterator>)
    requires CheckInit(s, pos, level)
    ensures r.Ok? ==> level + 1 <= MAX_DEPTH && (r.value.Element? ==> pos < r.value.pos < |s|)
  {
    var t := GetType(s, pos);
    if t.Thrown? || (t.value != ArrayType && t.value != ObjectType) || pos + 1 >= |s| then Thrown
    else if s[pos + 1] == '}' || s[pos + 1] == ']' then End(level)
    else if CheckInit(s, pos + 1, level + 1) then Ok(Element(pos + 1))
    else Thrown
  }

  /** The increment, for an element at pos of the given level. */
  function Advance(s: string, pos: nat, level: nat): (r: Result<Iterator>)
    requires CheckInit(s, pos, level)
    ensures r.Ok? && r.value.Element? ==> pos < r.value.pos < |s|
  {
    var next := SkipElement(s, pos, level);
    if next.Thrown? || next.value >= |s| then Thrown
    else if s[next.value] != ',' then Ok(Iterator.Null)
    else if next.value + 1 >= |s| then Thrown
    else Ok(Element(next.value + 1))
  }

  ghost predicate Usable(s: string, it: Iterator, level: nat) {
    level <= MAX_DEPTH && (it.Element? ==> it.pos < |s|)
  }

  /** All positions an iterator goes through. */
  ghost function Walk(s: string, it: Iterator, level: nat): Result<seq<nat>>
    requires Usable(s, it, level)
    decreases if it.Null? then 0 else 1 + |s| - it.pos
  {
    if it.Null? then Ok([])
    else
      var next := Advance(s, it.pos, level);
      if next.Thrown? then Thrown
      else
        var rest := Walk(s, next.value, level);
        if rest.Thrown? then Thrown else Ok([it.pos] + rest.value)
  }

  /** An iterator moved n times; moving past the end is an error. */
  ghost function Moved(s: string, it: Iterator, level: nat, n: nat): Result<Iterator>
    requires Usable(s, it, level)
    decreases n
  {
    if n == 0 then Ok(it)
    else if it.Null? then Thrown
    else
      var next := Advance(s, it.pos, level);
      if next.Thrown? then Thrown else Moved(s, next.value, level, n - 1)
  }

  /** The first member from `it` on whose name is the key. */
  ghost function Found(s: string, it: Iterator, level: nat, key: string, decode: string -> Result<string>)
    : Result<Iterator>
    requires Usable(s, it, level)
    decreases if it.Null? then 0 else 1 + |s| - it.pos
  {
    if it.Null? then Ok(Iterator.Null)
    else
      var same := NameIs(s, it.pos, key, decode);
      if same.Thrown? then Thrown
      else if same.value then Ok(it)
      else
        var next := Advance(s, it.pos, level);
        if next.Thrown? then Thrown else Found(s, next.value, level, key, decode)
  }

  /** What the iteration over a container visits, or an error, also one of building its iterators. */
  ghost function Iterated(s: string, begin: nat, level: nat): Result<seq<nat>>
    requires CheckInit(s, begin, level)
  {
    var it := Begin(s, begin, level);
    if it.Thrown? then Thrown else Walk(s, it.value, level + 1)
  }

  ghost function SizeOf(s: string, begin: nat, level: nat): Result<nat>
    requires CheckInit(s, begin, level)
  {
    var all := Iterated(s, begin, level);
    if all.Thrown? then Thrown else Ok(|all.value|)
  }

  ghost function IndexOf(s: string, begin: nat, level: nat, n: nat): Result<Iterator>
    requires CheckInit(s, begin, level)
  {
    var it := Begin(s, begin, level);
    if GetType(s, begin) != Ok(ArrayType) || it.Thrown? then Thrown else Moved(s, it.value, level + 1, n)
  }

  ghost function SearchOf(s: string, begin: nat, level: nat, key: string, decode: string -> Result<string>)
    : Result<Iterator>
    requires CheckInit(s, begin, level)
  {
    var it := Begin(s, begin, level);
    if GetType(s, begin) != Ok(ObjectType) || it.Thrown? then Thrown else Found(s, it.value, level + 1, key, decode)
  }

  // ---------------------------------------------------------------- the operations

  method First(s: string, begin: nat, level: nat) returns (r: Result<Iterator>)
    requires CheckInit(s, begin, level)
    ensures r == Begin(s, begin, level)
  {
    var t := TypeAt(s, begin);
    if t.Thrown? || (t.value != ArrayType && t.value != ObjectType) { return Thrown; }
    var pos := begin + 1;
    if pos >= |s| { return Thrown; }
    if s[pos] == '}' || s[pos] == ']' { return End(level); }
    r := if CheckInit(s, pos, level + 1) then Ok(Element(pos)) else Thrown;
  }

  method Increment(s: string, begin: nat, level: nat) returns (r: Result<Iterator>)
    requires CheckInit(s, begin, level)
    ensures r == Advance(s, begin, level)
  {
    var next := ReadElement(s, begin, level);
    if next.Thrown? || next.value >= |s| { return Thrown; }
    var pos := next.value;
    if s[pos] != ',' { return Ok(Iterator.Null); }
    pos := pos + 1;
    if pos >= |s| { return Thrown; }
    r := Ok(Element(pos));
  }

  /** The number of elements the iteration visits. */
  method Size(s: string, begin: nat, level: nat) returns (r: Result<nat>)
    requires CheckInit(s, begin, level)
    ensures r == SizeOf(s, begin, level)
  {
    var it := First(s, begin, level);
    if it.Thrown? { return Thrown; }
    ghost var all := Walk(s, it.value, level + 1);
    var i := 0;
    while it.value.Element?
      invariant it.Ok? && Usable(s, it.value, level + 1)
      invariant all.Ok? <==> Walk(s, it.value, level + 1).Ok?
      invariant all.Ok? ==> |all.value| == i + |Walk(s, it.value, level + 1).value|
      decreases if it.value.Null? then 0 else 1 + |s| - it.value.pos
    {
      it := Increment(s, it.value.pos, level + 1);
      if it.Thrown? { return Thrown; }
      i := i + 1;
    }
    r := Ok(i);
  }

  /** The element of an array with index n. */
  method Index(s: string, begin: nat, level: nat, n: nat) returns (r: Result<Iterator>)
    requires CheckInit(s, begin, level)
    ensures r == IndexOf(s, begin, level, n)
  {
    var t := TypeAt(s, begin);
    if t != Ok(ArrayType) || begin + 1 >= |s| { return Thrown; }
    var it := First(s, begin, level);
    if it.Thrown? { return Thrown; }
    ghost var result := Moved(s, it.value, level + 1, n);
    var i := 0;
    while i < n && it.value.Element?
      invariant i <= n && it.Ok? && Usable(s, it.value, level + 1)
      invariant result == Moved(s, it.value, level + 1, n - i)
    {
      it := Increment(s, it.value.pos, level + 1);
      if it.Thrown? { return Thrown; }
      i := i + 1;
    }
    if i != n { return Thrown; }
    r := it;
  }

  method CompareName(s: string, pos: nat, key: string, decode: string -> Result<string>) returns (r: Result<bool>)
    requires pos < |s|
    ensures r == NameIs(s, pos, key, decode)
  {
    var escapes := HasEscapes(s, pos);
    if escapes.Thrown? { return Thrown; }
    var name: Result<string>;
    if !escapes.value { name := GetRawString(s, pos); } else { name := ReadText(s, pos, decode); }
    r := if name.Thrown? then Thrown else Ok(name.value == key);
  }

  method SearchField(s: string, begin: nat, level: nat, key: string, decode: string -> Result<string>)
    returns (r: Result<Iterator>)
    requires CheckInit(s, begin, level)
    ensures r == SearchOf(s, begin, level, key, decode)
  {
    var t := TypeAt(s, begin);
    if t != Ok(ObjectType) { return Thrown; }
    var it := First(s, begin, level);
    if it.Thrown? { return Thrown; }
    r := SearchFrom(s, it.value, level + 1, key, decode);
  }

  /** The loop of the search, from an iterator on. */
  method SearchFrom(s: string, first: Iterator, level: nat, key: string, decode: string -> Result<string>)
    returns (r: Result<Iterator>)
    requires Usable(s, first, level)
    ensures r == Found(s, first, level, key, decode)
  {
    var it := first;
    while it.Element?
      invariant Usable(s, it, level) && Found(s, it, level, key, decode) == Found(s, first, level, key, decode)
      decreases if it.Null? then 0 else 1 + |s| - it.pos
    {
      FoundStep(s, it.pos, level, key, decode);
      var same := CompareName(s, it.pos, key, decode);
      if same.Thrown? { return Thrown; }
      if same.value { return Ok(it); }
      var next := Increment(s, it.pos, level);
      if next.Thrown? { return Thrown; }
      it := next.value;
    }
    r := Ok(it);
  }

  lemma FoundStep(s: string, pos: nat, level: nat, key: string, decode: string -> Result<string>)
    requires CheckInit(s, pos, level)
    ensures var same, found := NameIs(s, pos, key, decode), Found(s, Element(pos), level, key, decode);
            && (same.Thrown? ==> found == Thrown)
            && (same == Ok(true) ==> found == Ok(Element(pos)))
            && (same == Ok(false) && Advance(s, pos, level).Thrown? ==> found == Thrown)
            && (same == Ok(false) && Advance(s, pos, level).Ok?
                ==> found == Found(s, Advance(s, pos, level).value, level, key, decode))
  {
  }

  // ---------------------------------------------------------------- any text

  /** On every text: once the walk is known, moving n times finds the element with index n; n equal to the size gives
      the null iterator, and only a larger n is an error. */
  lemma {:induction false} IndexFromWalk(s: string, it: Iterator, level: nat, n: nat)
    requires Usable(s, it, level) && Walk(s, it, level).Ok?
    ensures var all := Walk(s, it, level).value;
            Moved(s, it, level, n)
            == if n < |all| then Ok(Element(all[n])) else if n == |all| then Ok(Iterator.Null) else Thrown
    decreases n
  {
    if n > 0 && it.Element? { IndexFromWalk(s, Advance(s, it.pos, level).value, level, n - 1); }
  }

  // ---------------------------------------------------------------- positions that the increment links

  /** What the increment does at an element: it goes on behind it, ends the iteration there, or throws. */
  datatype Outcome = Passed | Ends | Throws

  /** A number with a plus sign ends the iteration as if it were the last element. */
  function OutcomeOf(v: Value, level: nat): Outcome {
    if Good(v, level) then Passed else if PlusNumber(v) then Ends else Throws
  }

  function After(starts: seq<nat>, k: nat, out: Outcome): Result<Iterator> {
    match out
    case Passed => Ok(if k + 1 < |starts| then Element(starts[k + 1]) else Iterator.Null)
    case Ends => Ok(Iterator.Null)
    case Throws => Thrown
  }

  ghost predicate Linked(s: string, level: nat, starts: seq<nat>, outs: seq<Outcome>, k: nat)
    requires k < |starts| == |outs|
  {
    CheckInit(s, starts[k], level) && Advance(s, starts[k], level) == After(starts, k, outs[k])
  }

  ghost predicate Chain(s: string, level: nat, starts: seq<nat>, outs: seq<Outcome>) {
    |starts| == |outs| && forall k: nat :: k < |starts| ==> Linked(s, level, starts, outs, k)
  }

  lemma ChainPrepend(s: string, level: nat, pos: nat, out: Outcome, starts: seq<nat>, outs: seq<Outcome>)
    requires Chain(s, level, starts, outs) && CheckInit(s, pos, level)
    requires Advance(s, pos, level) == After([pos] + starts, 0, out)
    ensures Chain(s, level, [pos] + starts, [out] + outs)
  {
    var ss, os := [pos] + starts, [out] + outs;
    forall k: nat | k < |ss| ensures Linked(s, level, ss, os, k) {
      if k > 0 { assert Linked(s, level, starts, outs, k - 1); }
    }
  }

  /** The positions the iteration visits from the k-th on. */
  function Visited(starts: seq<nat>, outs: seq<Outcome>, k: nat): Result<seq<nat>>
    requires |starts| == |outs|
    decreases |starts| - k
  {
    if k >= |starts| then Ok([])
    else
      match outs[k]
      case Passed => Longer(starts[k], Visited(starts, outs, k + 1))
      case Ends => Ok([starts[k]])
      case Throws => Thrown
  }

  function Longer(pos: nat, rest: Result<seq<nat>>): Result<seq<nat>> {
    if rest.Thrown? then Thrown else Ok([pos] + rest.value)
  }

  /** One step of a walk. */
  lemma WalkStep(s: string, pos: nat, level: nat)
    requires CheckInit(s, pos, level)
    ensures Advance(s, pos, level).Thrown? ==> Walk(s, Element(pos), level) == Thrown
    ensures Advance(s, pos, level) == Ok(Iterator.Null) ==> Walk(s, Element(pos), level) == Ok([pos])
    ensures Advance(s, pos, level).Ok? && Advance(s, pos, level).value.Element?
            ==> Walk(s, Element(pos), level) == Longer(pos, Walk(s, Advance(s, pos, level).value, level))
  {
    assert [pos] + [] == [pos];
  }

  lemma {:induction false} WalkOfChain(s: string, level: nat, starts: seq<nat>, outs: seq<Outcome>, k: nat)
    requires Chain(s, level, starts, outs) && k < |starts|
    ensures CheckInit(s, starts[k], level) && Walk(s, Element(starts[k]), level) == Visited(starts, outs, k)
    decreases |starts| - k
  {
    assert Linked(s, level, starts, outs, k);
    WalkStep(s, starts[k], level);
    if k + 1 < |starts| { WalkOfChain(s, level, starts, outs, k + 1); }
    else { assert [starts[k]] + [] == [starts[k]]; }
  }

  /** The iteration sees everything: it goes on behind every element but the last, and does not throw there. */
  predicate SeesAll(outs: seq<Outcome>, k: nat) {
    forall i :: k <= i < |outs| ==> !outs[i].Throws? && (i + 1 < |outs| ==> outs[i].Passed?)
  }

  lemma {:induction false} VisitsAll(starts: seq<nat>, outs: seq<Outcome>, k: nat)
    requires k <= |starts| == |outs|
    ensures Visited(starts, outs, k) == Ok(starts[k..]) <==> SeesAll(outs, k)
    decreases |starts| - k
  {
    if k < |starts| {
      VisitsAll(starts, outs, k + 1);
      LongerIsEqual(starts[k], Visited(starts, outs, k + 1), starts[k + 1..]);
      assert starts[k..] == [starts[k]] + starts[k + 1..];
      SeesUnfold(outs, k);
      if k + 1 < |starts| { assert |starts[k..]| > |[starts[k]]|; } else { assert starts[k..] == [starts[k]]; }
    } else {
      assert starts[k..] == [];
    }
  }

  lemma SeesUnfold(outs: seq<Outcome>, k: nat)
    requires k < |outs|
    ensures SeesAll(outs, k)
            <==> !outs[k].Throws? && (k + 1 < |outs| ==> outs[k].Passed?) && SeesAll(outs, k + 1)
  {
  }

  lemma LongerIsEqual(pos: nat, more: Result<seq<nat>>, rest: seq<nat>)
    ensures Longer(pos, more) == Ok([pos] + rest) <==> more == Ok(rest)
  {
    assert ([pos] + rest)[1..] == rest;
    if more.Ok? { assert ([pos] + more.value)[1..] == more.value; }
  }

  /** An element with a plus sign ends the iteration: what stands behind it is not visited. */
  lemma {:induction false} PlusEndsIteration(starts: seq<nat>, outs: seq<Outcome>, j: nat, k: nat)
    requires k <= j < |starts| == |outs| && outs[j].Ends? && forall i :: k <= i < j ==> outs[i].Passed?
    ensures Visited(starts, outs, k) == Ok(starts[k..j + 1])
    decreases j - k
  {
    if k < j {
      PlusEndsIteration(starts, outs, j, k + 1);
      assert starts[k..j + 1] == [starts[k]] + starts[k + 1..j + 1];
    } else {
      assert starts[j..j + 1] == [starts[j]];
    }
  }

  /** The search from the k-th position on, when same tells the comparisons: those behind the end are not made. */
  function FirstTrue(starts: seq<nat>, outs: seq<Outcome>, same: seq<Result<bool>>, k: nat): Result<Iterator>
    requires |same| == |starts| == |outs|
    decreases |starts| - k
  {
    if k >= |starts| then Ok(Iterator.Null)
    else if same[k].Thrown? then Thrown
    else if same[k].value then Ok(Element(starts[k]))
    else
      match outs[k]
      case Passed => FirstTrue(starts, outs, same, k + 1)
      case Ends => Ok(Iterator.Null)
      case Throws => Thrown
  }

  lemma {:induction false} FoundInChain(s: string, level: nat, starts: seq<nat>, outs: seq<Outcome>,
                                        same: seq<Result<bool>>, k: nat, key: string, decode: string -> Result<string>)
    requires Chain(s, level, starts, outs) && k < |starts| == |same|
    requires forall i :: 0 <= i < |starts| ==> starts[i] < |s| && NameIs(s, starts[i], key, decode) == same[i]
    ensures CheckInit(s, starts[k], level)
    ensures Found(s, Element(starts[k]), level, key, decode) == FirstTrue(starts, outs, same, k)
    decreases |starts| - k
  {
    assert Linked(s, level, starts, outs, k);
    FoundStep(s, starts[k], level, key, decode);
    if k + 1 < |starts| { FoundInChain(s, level, starts, outs, same, k + 1, key, decode); }
  }

  /** The search finds the j-th position if and only if its comparison is true, those before are false and the
      iteration goes on behind each of them. */
  lemma {:induction false} FindsFirst(starts: seq<nat>, outs: seq<Outcome>, same: seq<Result<bool>>, j: nat, k: nat)
    requires k <= j < |starts| == |outs| == |same|
    requires forall i, i' :: 0 <= i < i' < |starts| ==> starts[i] != starts[i']
    ensures FirstTrue(starts, outs, same, k) == Ok(Element(starts[j]))
            <==> same[j] == Ok(true) && forall i :: k <= i < j ==> same[i] == Ok(false) && outs[i].Passed?
    decreases j - k
  {
    if k < j {
      FindsFirst(starts, outs, same, j, k + 1);
      assert starts[k] != starts[j];
      FalseBefore(outs, same, j, k);
    } else {
      FindsBehind(starts, outs, same, k + 1, starts[j]);
    }
  }

  lemma {:induction false} FindsBehind(starts: seq<nat>, outs: seq<Outcome>, same: seq<Result<bool>>, k: nat, p: nat)
    requires k <= |starts| == |outs| == |same| && forall i :: k <= i < |starts| ==> starts[i] != p
    ensures FirstTrue(starts, outs, same, k) != Ok(Element(p))
    decreases |starts| - k
  {
    if k < |starts| { FindsBehind(starts, outs, same, k + 1, p); }
  }

  lemma FalseBefore(outs: seq<Outcome>, same: seq<Result<bool>>, j: nat, k: nat)
    requires k < j < |outs| == |same|
    ensures (forall i :: k <= i < j ==> same[i] == Ok(false) && outs[i].Passed?)
            <==> same[k] == Ok(false) && outs[k].Passed?
                 && forall i :: k + 1 <= i < j ==> same[i] == Ok(false) && outs[i].Passed?
  {
  }

  // ---- moving along

  function PlaceAt(starts: seq<nat>, k: nat): Iterator {
    if k < |starts| then Element(starts[k]) else Iterator.Null
  }

  lemma {:induction false} MovedPassed(s: string, level: nat, starts: seq<nat>, outs: seq<Outcome>, k: nat, n: nat)
    requires Chain(s, level, starts, outs) && level <= MAX_DEPTH && k + n <= |starts|
    requires forall i :: k <= i < k + n ==> outs[i].Passed?
    ensures Usable(s, PlaceAt(starts, k), level) && Moved(s, PlaceAt(starts, k), level, n) == Ok(PlaceAt(starts, k + n))
    decreases n
  {
    if k < |starts| { assert Linked(s, level, starts, outs, k); }
    if n > 0 { MovedPassed(s, level, starts, outs, k + 1, n - 1); }
  }

  /** Past the end, and past an element that does not let pass. */
  lemma {:induction false} MovedBeyond(s: string, level: nat, starts: seq<nat>, outs: seq<Outcome>, k: nat, n: nat)
    requires Chain(s, level, starts, outs) && level <= MAX_DEPTH && k <= |starts| < k + n
    requires forall i :: k <= i < |outs| ==> outs[i].Passed?
    ensures Usable(s, PlaceAt(starts, k), level) && Moved(s, PlaceAt(starts, k), level, n) == Thrown
    decreases n
  {
    if k < |starts| {
      assert Linked(s, level, starts, outs, k);
      MovedBeyond(s, level, starts, outs, k + 1, n - 1);
    }
  }

  lemma {:induction false} MovedStopped(s: string, level: nat, starts: seq<nat>, outs: seq<Outcome>, k: nat, j: nat, n: nat)
    requires Chain(s, level, starts, outs) && level <= MAX_DEPTH && k <= j < |starts| && j < k + n
    requires !outs[j].Passed? && forall i :: k <= i < j ==> outs[i].Passed?
    ensures Usable(s, PlaceAt(starts, k), level)
    ensures Moved(s, PlaceAt(starts, k), level, n)
            == if outs[j].Ends? && n == j - k + 1 then Ok(Iterator.Null) else Thrown
    decreases n
  {
    assert Linked(s, level, starts, outs, k);
    if k < j { MovedStopped(s, level, starts, outs, k + 1, j, n - 1); }
  }

  // ---- from the first position

  function FirstOf(starts: seq<nat>): Iterator {
    PlaceAt(starts, 0)
  }

  lemma WholeWalk(s: string, level: nat, starts: seq<nat>, outs: seq<Outcome>)
    requires Chain(s, level, starts, outs) && level <= MAX_DEPTH
    ensures Usable(s, FirstOf(starts), level) && Walk(s, FirstOf(starts), level) == Visited(starts, outs, 0)
    ensures Visited(starts, outs, 0) == Ok(starts) <==> SeesAll(outs, 0)
  {
    VisitsAll(starts, outs, 0);
    assert starts[0..] == starts;
    if starts != [] { WalkOfChain(s, level, starts, outs, 0); }
  }

  lemma WholeSearch(s: string, level: nat, starts: seq<nat>, outs: seq<Outcome>, same: seq<Result<bool>>, key: string,
                    decode: string -> Result<string>)
    requires Chain(s, level, starts, outs) && level <= MAX_DEPTH && |starts| == |same|
    requires forall i :: 0 <= i < |starts| ==> starts[i] < |s| && NameIs(s, starts[i], key, decode) == same[i]
    ensures Usable(s, FirstOf(starts), level)
    ensures Found(s, FirstOf(starts), level, key, decode) == FirstTrue(starts, outs, same, 0)
  {
    if starts != [] { FoundInChain(s, level, starts, outs, same, 0, key, decode); }
  }

  // ---------------------------------------------------------------- printed arrays

  /** Where the i-th item of a printed list starts. */
  function ItemOffset(pos: nat, items: List<Value>, i: nat): nat
    requires i < Length(items)
    decreases items
  {
    if i == 0 then pos else ItemOffset(pos + |Print(items.head)| + 1, items.tail, i - 1)
  }

  function ItemStarts(pos: nat, items: List<Value>): (starts: seq<nat>)
    ensures |starts| == Length(items)
  {
    seq(Length(items), i requires 0 <= i < Length(items) => ItemOffset(pos, items, i))
  }

  function ItemOutcomes(items: List<Value>, level: nat): (outs: seq<Outcome>)
    ensures |outs| == Length(items)
  {
    seq(Length(items), i requires 0 <= i < Length(items) => OutcomeOf(Nth(items, i), level))
  }

  /** The increment, once the element is skipped. */
  lemma AdvanceFrom(s: string, pos: nat, level: nat, next: nat)
    requires CheckInit(s, pos, level) && SkipElement(s, pos, level) == Ok(next) && next < |s|
    ensures s[next] != ',' ==> Advance(s, pos, level) == Ok(Iterator.Null)
    ensures s[next] == ',' && next + 1 < |s| ==> Advance(s, pos, level) == Ok(Element(next + 1))
  {
  }

  /** What stands behind the first item. */
  lemma ItemText(s: string, pos: nat, items: List<Value>, end: nat) returns (next: nat)
    requires items.Cons? && ValidItems(items)
    requires At(s, pos, PrintItems(items)) && end == pos + |PrintItems(items)| && Next(s, end, ']')
    ensures next == pos + |Print(items.head)| && pos < next < |s| && At(s, pos, Print(items.head)) && Follow(s, next)
    ensures items.tail.Nil? ==> s[next] == ']'
    ensures items.tail.Cons? ==> s[next] == ',' && next + 1 < |s| && At(s, next + 1, PrintItems(items.tail))
                                 && end == next + 1 + |PrintItems(items.tail)|
  {
    FirstItem(s, pos, items);
    ItemsLength(items);
    next := pos + |Print(items.head)|;
  }

  lemma ItemAdvance(s: string, pos: nat, level: nat, items: List<Value>, end: nat)
    requires items.Cons? && ValidItems(items) && level <= MAX_DEPTH
    requires At(s, pos, PrintItems(items)) && end == pos + |PrintItems(items)| && Next(s, end, ']')
    ensures pos < |s|
    ensures Advance(s, pos, level)
            == match OutcomeOf(items.head, level)
               case Passed => Ok(if items.tail.Nil? then Iterator.Null else Element(pos + |Print(items.head)| + 1))
               case Ends => Ok(Iterator.Null)
               case Throws => Thrown
  {
    var next := ItemText(s, pos, items, end);
    ItemElement(s, pos, level, items.head);
    if !OutcomeOf(items.head, level).Throws? {
      AdvanceFrom(s, pos, level, SkipElement(s, pos, level).value);
    }
  }

  /** The skipping of a value in the terms of its outcome. */
  lemma ItemElement(s: string, pos: nat, level: nat, v: Value)
    requires Valid(v) && level <= MAX_DEPTH && At(s, pos, Print(v)) && Follow(s, pos + |Print(v)|)
    ensures CheckInit(s, pos, level)
    ensures OutcomeOf(v, level).Passed? ==> SkipElement(s, pos, level) == Ok(pos + |Print(v)|)
    ensures OutcomeOf(v, level).Ends?
            ==> SkipElement(s, pos, level).Ok? && Next(s, SkipElement(s, pos, level).value, '+')
    ensures OutcomeOf(v, level).Throws? ==> SkipElement(s, pos, level) == Thrown
  {
    FirstChar(s, pos, v);
    ElementSkip(s, pos, level, v);
  }

  lemma ItemStartsUnfold(pos: nat, items: List<Value>)
    requires items.Cons?
    ensures var rest := ItemStarts(pos + |Print(items.head)| + 1, items.tail);
            && ItemStarts(pos, items) == [pos] + rest
            && (items.tail.Nil? ==> rest == [])
            && (items.tail.Cons? ==> rest != [] && rest[0] == pos + |Print(items.head)| + 1)
  {
  }

  lemma ItemOutcomesUnfold(items: List<Value>, level: nat)
    requires items.Cons?
    ensures ItemOutcomes(items, level) == [OutcomeOf(items.head, level)] + ItemOutcomes(items.tail, level)
  {
  }

  lemma {:induction false} ChainOfItems(s: string, pos: nat, level: nat, items: List<Value>, end: nat)
    requires items.Cons? && ValidItems(items) && level <= MAX_DEPTH
    requires At(s, pos, PrintItems(items)) && end == pos + |PrintItems(items)| && Next(s, end, ']')
    ensures Chain(s, level, ItemStarts(pos, items), ItemOutcomes(items, level))
    decreases items
  {
    var next := ItemText(s, pos, items, end);
    ItemAdvance(s, pos, level, items, end);
    ItemStartsUnfold(pos, items);
    ItemOutcomesUnfold(items, level);
    if items.tail.Cons? { ChainOfItems(s, next + 1, level, items.tail, end); }
    ChainPrepend(s, level, pos, OutcomeOf(items.head, level),
                 ItemStarts(next + 1, items.tail), ItemOutcomes(items.tail, level));
  }

  /** Each start is the start of the item with that index. */
  lemma {:induction false} StartsOfItems(s: string, pos: nat, items: List<Value>, i: nat)
    requires ValidItems(items) && At(s, pos, PrintItems(items)) && i < Length(items)
    ensures At(s, ItemOffset(pos, items, i), Print(Nth(items, i)))
    decreases items
  {
    FirstItem(s, pos, items);
    if i > 0 { StartsOfItems(s, pos + |Print(items.head)| + 1, items.tail, i - 1); }
  }

  /** The iteration over a printed array can begin if and only if its items are not too deep. */
  lemma BeginArray(s: string, pos: nat, level: nat, items: List<Value>)
    requires ValidItems(items) && CheckInit(s, pos, level) && At(s, pos, Print(Arr(items)))
    ensures GetType(s, pos) == Ok(ArrayType) && (Begin(s, pos, level).Ok? <==> level + 1 <= MAX_DEPTH)
    ensures level + 1 <= MAX_DEPTH
            ==> Begin(s, pos, level) == Ok(if items.Nil? then Iterator.Null else Element(pos + 1))
    ensures items.Cons? ==> pos + 1 < |s| && At(s, pos + 1, PrintItems(items))
                            && Next(s, pos + 1 + |PrintItems(items)|, ']')
  {
    Enclosed(s, pos, '[', PrintItems(items), ']');
    if items.Cons? { FirstItem(s, pos + 1, items); }
  }

  lemma ArrayChain(s: string, pos: nat, level: nat, items: List<Value>)
    requires ValidItems(items) && CheckInit(s, pos, level) && At(s, pos, Print(Arr(items))) && level + 1 <= MAX_DEPTH
    ensures GetType(s, pos) == Ok(ArrayType) && Begin(s, pos, level) == Ok(FirstOf(ItemStarts(pos + 1, items)))
    ensures Chain(s, level + 1, ItemStarts(pos + 1, items), ItemOutcomes(items, level + 1))
  {
    BeginArray(s, pos, level, items);
    if items.Cons? {
      ItemStartsUnfold(pos + 1, items);
      ChainOfItems(s, pos + 1, level + 1, items, pos + 1 + |PrintItems(items)|);
    }
  }

  /** Iteration over a printed array visits its items in order, all of them if and only if the items are not too deep,
      every item but the last is good and the last is good or a number with a plus sign. */
  lemma ArrayIteration(s: string, pos: nat, level: nat, items: List<Value>)
    requires ValidItems(items) && CheckInit(s, pos, level) && At(s, pos, Print(Arr(items)))
    ensures var all, outs := Iterated(s, pos, level), ItemOutcomes(items, level + 1);
            && all == (if level + 1 <= MAX_DEPTH then Visited(ItemStarts(pos + 1, items), outs, 0) else Thrown)
            && (all == Ok(ItemStarts(pos + 1, items)) <==> level + 1 <= MAX_DEPTH && SeesAll(outs, 0))
  {
    BeginArray(s, pos, level, items);
    if level + 1 <= MAX_DEPTH {
      ArrayChain(s, pos, level, items);
      WholeWalk(s, level + 1, ItemStarts(pos + 1, items), ItemOutcomes(items, level + 1));
    }
  }

  /** The iteration goes on behind the elements before the n-th. */
  predicate PassesTo(outs: seq<Outcome>, n: nat) {
    forall i :: 0 <= i < n && i < |outs| ==> outs[i].Passed?
  }

  /** The j-th element is the first that does not let pass. */
  predicate StopsAt(outs: seq<Outcome>, j: nat) {
    j < |outs| && !outs[j].Passed? && PassesTo(outs, j)
  }

  lemma FirstStop(outs: seq<Outcome>, n: nat) returns (j: nat)
    requires !PassesTo(outs, n)
    ensures j < n && StopsAt(outs, j)
  {
    j := 0;
    while outs[j].Passed?
      invariant 0 <= j < n && j < |outs| && PassesTo(outs, j)
      decreases n - j
    {
      j := j + 1;
    }
  }

  /** What moving n times gives: the n-th element if and only if those before it let pass, null at the end, right behind
      an element that ends the iteration also null, and else an error. */
  predicate IndexResult(starts: seq<nat>, outs: seq<Outcome>, n: nat, r: Result<Iterator>)
    requires |starts| == |outs|
  {
    && (n < |starts| ==> (r == Ok(Element(starts[n])) <==> PassesTo(outs, n)))
    && (n >= |starts| && PassesTo(outs, n) ==> r == if n == |starts| then Ok(Iterator.Null) else Thrown)
    && forall j: nat :: j < n && StopsAt(outs, j) ==> r == if outs[j].Ends? && n == j + 1 then Ok(Iterator.Null) else Thrown
  }

  /** Moving along a chain: exact for every number of steps. */
  lemma IndexInChain(s: string, level: nat, starts: seq<nat>, outs: seq<Outcome>, n: nat)
    requires Chain(s, level, starts, outs) && level <= MAX_DEPTH
    ensures Usable(s, FirstOf(starts), level) && IndexResult(starts, outs, n, Moved(s, FirstOf(starts), level, n))
  {
    if PassesTo(outs, n) {
      if n <= |starts| { MovedPassed(s, level, starts, outs, 0, n); } else { MovedBeyond(s, level, starts, outs, 0, n); }
    } else {
      var j := FirstStop(outs, n);
      MovedStopped(s, level, starts, outs, 0, j, n);
      forall i: nat | i < n && StopsAt(outs, i) ensures i == j { OneStop(outs, i, j); }
    }
  }

  lemma OneStop(outs: seq<Outcome>, i: nat, j: nat)
    requires StopsAt(outs, i) && StopsAt(outs, j)
    ensures i == j
  {
  }

  /** Indexing a printed array, for every index: the item with that index if and only if the iteration goes on behind
      all items before it. At the size it gives the null iterator instead of an error, and so it does right behind an
      item with a plus sign. */
  lemma ArrayIndex(s: string, pos: nat, level: nat, items: List<Value>, n: nat)
    requires ValidItems(items) && CheckInit(s, pos, level) && At(s, pos, Print(Arr(items)))
    ensures level + 1 > MAX_DEPTH ==> IndexOf(s, pos, level, n) == Thrown
    ensures level + 1 <= MAX_DEPTH
            ==> IndexResult(ItemStarts(pos + 1, items), ItemOutcomes(items, level + 1), n, IndexOf(s, pos, level, n))
  {
    BeginArray(s, pos, level, items);
    if level + 1 <= MAX_DEPTH {
      ArrayChain(s, pos, level, items);
      IndexInChain(s, level + 1, ItemStarts(pos + 1, items), ItemOutcomes(items, level + 1), n);
    }
  }

  /** The position found is the one of the item with that index. */
  lemma IndexIsItem(s: string, pos: nat, level: nat, items: List<Value>, n: nat)
    requires ValidItems(items) && CheckInit(s, pos, level) && At(s, pos, Print(Arr(items))) && n < Length(items)
    ensures At(s, ItemStarts(pos + 1, items)[n], Print(Nth(items, n)))
  {
    Enclosed(s, pos, '[', PrintItems(items), ']');
    StartsOfItems(s, pos + 1, items, n);
  }

  /** An array whose first number with a plus sign has index j, all items before it being good, has size j + 1. */
  lemma PlusShortensArray(s: string, pos: nat, level: nat, items: List<Value>, j: nat)
    requires ValidItems(items) && CheckInit(s, pos, level) && At(s, pos, Print(Arr(items))) && level + 1 <= MAX_DEPTH
    requires j < Length(items) && PlusNumber(Nth(items, j)) && forall i :: 0 <= i < j ==> Good(Nth(items, i), level + 1)
    ensures SizeOf(s, pos, level) == Ok(j + 1)
  {
    var starts, outs := ItemStarts(pos + 1, items), ItemOutcomes(items, level + 1);
    ArrayIteration(s, pos, level, items);
    assert outs[j].Ends?;
    forall i | 0 <= i < j ensures outs[i].Passed? {}
    PlusEndsIteration(starts, outs, j, 0);
  }

  // ---------------------------------------------------------------- printed objects

  /** Where the i-th member of a printed list starts. */
  function MemberOffset(pos: nat, members: List<Member>, i: nat): nat
    requires i < Length(members)
    decreases members
  {
    if i == 0 then pos else MemberOffset(pos + |PrintMember(members.head)| + 1, members.tail, i - 1)
  }

  function MemberStarts(pos: nat, members: List<Member>): (starts: seq<nat>)
    ensures |starts| == Length(members)
  {
    seq(Length(members), i requires 0 <= i < Length(members) => MemberOffset(pos, members, i))
  }

  /** The value of a member is one level below the member. */
  function MemberOutcome(m: Member, level: nat): Outcome {
    if level + 1 <= MAX_DEPTH then OutcomeOf(m.value, level + 1) else Throws
  }

  function MemberOutcomes(members: List<Member>, level: nat): (outs: seq<Outcome>)
    ensures |outs| == Length(members)
  {
    seq(Length(members), i requires 0 <= i < Length(members) => MemberOutcome(Nth(members, i), level))
  }

  /** A member is an element of its own: the iteration skips it as a name-value pair. */
  lemma PairElement(s: string, pos: nat, level: nat, m: Member)
    requires ValidText(m.name) && CheckInit(s, pos, level) && At(s, pos, PrintMember(m))
    ensures SkipElement(s, pos, level) == SkipNameValuePair(s, pos, level)
  {
    MemberParts(s, pos, m);
    QuotedParts(s, pos, m.name);
    StringSkip(s, pos, m.name);
  }

  /** What stands behind the first member. */
  lemma MemberText(s: string, pos: nat, members: List<Member>, end: nat) returns (next: nat)
    requires members.Cons? && ValidMembers(members)
    requires At(s, pos, PrintMembers(members)) && end == pos + |PrintMembers(members)| && Next(s, end, '}')
    ensures next == pos + |PrintMember(members.head)| && pos < next < |s| && Follow(s, next)
    ensures At(s, pos, PrintMember(members.head))
    ensures members.tail.Nil? ==> s[next] == '}'
    ensures members.tail.Cons? ==> s[next] == ',' && next + 1 < |s| && At(s, next + 1, PrintMembers(members.tail))
                                   && end == next + 1 + |PrintMembers(members.tail)|
  {
    FirstMember(s, pos, members);
    MembersLength(members);
    next := pos + |PrintMember(members.head)|;
  }

  /** A member is skipped up to where its value is. */
  lemma MemberElement(s: string, pos: nat, level: nat, m: Member)
    requires ValidText(m.name) && Valid(m.value) && level <= MAX_DEPTH
    requires At(s, pos, PrintMember(m)) && Follow(s, pos + |PrintMember(m)|)
    ensures CheckInit(s, pos, level)
    ensures MemberOutcome(m, level).Passed? ==> SkipElement(s, pos, level) == Ok(pos + |PrintMember(m)|)
    ensures MemberOutcome(m, level).Ends?
            ==> SkipElement(s, pos, level).Ok? && Next(s, SkipElement(s, pos, level).value, '+')
    ensures MemberOutcome(m, level).Throws? ==> SkipElement(s, pos, level) == Thrown
  {
    MemberParts(s, pos, m);
    ValueElement(s, pos, level, m);
    if level + 1 <= MAX_DEPTH { ItemElement(s, pos + |Quoted(m.name)| + 1, level + 1, m.value); }
  }

  lemma ValueElement(s: string, pos: nat, level: nat, m: Member)
    requires ValidText(m.name) && Valid(m.value) && level <= MAX_DEPTH && At(s, pos, PrintMember(m))
    ensures var p := pos + |Quoted(m.name)| + 1;
            && CheckInit(s, pos, level) && p < |s|
            && SkipElement(s, pos, level) == if level + 1 <= MAX_DEPTH then SkipElement(s, p, level + 1) else Thrown
  {
    MemberParts(s, pos, m);
    FirstChar(s, pos + |Quoted(m.name)| + 1, m.value);
    PairElement(s, pos, level, m);
    PairUnfold(s, pos, level, m);
  }

  lemma MemberAdvance(s: string, pos: nat, level: nat, members: List<Member>, end: nat)
    requires members.Cons? && ValidMembers(members) && level <= MAX_DEPTH
    requires At(s, pos, PrintMembers(members)) && end == pos + |PrintMembers(members)| && Next(s, end, '}')
    ensures pos < |s|
    ensures Advance(s, pos, level)
            == match MemberOutcome(members.head, level)
               case Passed => Ok(if members.tail.Nil? then Iterator.Null
                                 else Element(pos + |PrintMember(members.head)| + 1))
               case Ends => Ok(Iterator.Null)
               case Throws => Thrown
  {
    var next := MemberText(s, pos, members, end);
    MemberElement(s, pos, level, members.head);
    if !MemberOutcome(members.head, level).Throws? {
      AdvanceFrom(s, pos, level, SkipElement(s, pos, level).value);
    }
  }

  lemma MemberStartsUnfold(pos: nat, members: List<Member>)
    requires members.Cons?
    ensures var rest := MemberStarts(pos + |PrintMember(members.head)| + 1, members.tail);
            && MemberStarts(pos, members) == [pos] + rest
            && (members.tail.Nil? ==> rest == [])
            && (members.tail.Cons? ==> rest != [] && rest[0] == pos + |PrintMember(members.head)| + 1)
  {
  }

  lemma MemberOutcomesUnfold(members: List<Member>, level: nat)
    requires members.Cons?
    ensures MemberOutcomes(members, level) == [MemberOutcome(members.head, level)] + MemberOutcomes(members.tail, level)
  {
  }

  /** The link from the first member to the next one. */
  lemma MemberLink(s: string, pos: nat, level: nat, members: List<Member>, end: nat)
    requires members.Cons? && ValidMembers(members) && level <= MAX_DEPTH
    requires At(s, pos, PrintMembers(members)) && end == pos + |PrintMembers(members)| && Next(s, end, '}')
    ensures var rest := MemberStarts(pos + |PrintMember(members.head)| + 1, members.tail);
            && CheckInit(s, pos, level) && MemberStarts(pos, members) == [pos] + rest
            && Advance(s, pos, level) == After([pos] + rest, 0, MemberOutcome(members.head, level))
  {
    MemberAdvance(s, pos, level, members, end);
    MemberStartsUnfold(pos, members);
  }

  lemma ChainBack(s: string, pos: nat, level: nat, members: List<Member>, end: nat)
    requires members.Cons? && ValidMembers(members) && level <= MAX_DEPTH
    requires At(s, pos, PrintMembers(members)) && end == pos + |PrintMembers(members)| && Next(s, end, '}')
    requires Chain(s, level, MemberStarts(pos + |PrintMember(members.head)| + 1, members.tail),
                   MemberOutcomes(members.tail, level))
    ensures Chain(s, level, MemberStarts(pos, members), MemberOutcomes(members, level))
  {
    MemberLink(s, pos, level, members, end);
    MemberOutcomesUnfold(members, level);
    ChainPrepend(s, level, pos, MemberOutcome(members.head, level),
                 MemberStarts(pos + |PrintMember(members.head)| + 1, members.tail), MemberOutcomes(members.tail, level));
  }

  lemma {:induction false} ChainOfMembers(s: string, pos: nat, level: nat, members: List<Member>, end: nat)
    requires members.Cons? && ValidMembers(members) && level <= MAX_DEPTH
    requires At(s, pos, PrintMembers(members)) && end == pos + |PrintMembers(members)| && Next(s, end, '}')
    ensures Chain(s, level, MemberStarts(pos, members), MemberOutcomes(members, level))
    decreases members
  {
    var next := MemberText(s, pos, members, end);
    if members.tail.Cons? { ChainOfMembers(s, next + 1, level, members.tail, end); }
    ChainBack(s, pos, level, members, end);
  }

  /** Each start is the start of the member with that index. */
  lemma {:induction false} StartsOfMembers(s: string, pos: nat, members: List<Member>, i: nat)
    requires At(s, pos, PrintMembers(members)) && i < Length(members)
    ensures At(s, MemberOffset(pos, members, i), PrintMember(Nth(members, i)))
    decreases members
  {
    FirstMember(s, pos, members);
    if i > 0 { StartsOfMembers(s, pos + |PrintMember(members.head)| + 1, members.tail, i - 1); }
  }

  /** Does the meaning of a name equal the key? */
  function SameName(m: Member, key: string, decode: string -> Result<string>): Result<bool> {
    var name := Decoded(m.name, decode);
    if name.Thrown? then Thrown else Ok(name.value == key)
  }

  function SameNames(members: List<Member>, key: string, decode: string -> Result<string>): (same: seq<Result<bool>>)
    ensures |same| == Length(members)
  {
    seq(Length(members), i requires 0 <= i < Length(members) => SameName(Nth(members, i), key, decode))
  }

  /** The comparison of a printed member's name with the key. */
  lemma NameOfMember(s: string, pos: nat, m: Member, key: string, decode: string -> Result<string>)
    requires ValidText(m.name) && At(s, pos, PrintMember(m))
    ensures pos < |s| && NameIs(s, pos, key, decode) == SameName(m, key, decode)
  {
    MemberParts(s, pos, m);
    StringOfPrinted(s, pos, m.name, decode);
    NameIsUnescaped(s, pos, key, decode);
  }

  lemma {:induction false} ValidName(members: List<Member>, i: nat)
    requires ValidMembers(members) && i < Length(members)
    ensures ValidText(Nth(members, i).name)
    decreases members
  {
    if i > 0 { ValidName(members.tail, i - 1); }
  }

  /** The iteration over a printed object can begin if and only if its members are not too deep. */
  lemma BeginObject(s: string, pos: nat, level: nat, members: List<Member>)
    requires CheckInit(s, pos, level) && At(s, pos, Print(Obj(members)))
    ensures GetType(s, pos) == Ok(ObjectType) && (Begin(s, pos, level).Ok? <==> level + 1 <= MAX_DEPTH)
    ensures level + 1 <= MAX_DEPTH
            ==> Begin(s, pos, level) == Ok(if members.Nil? then Iterator.Null else Element(pos + 1))
    ensures At(s, pos + 1, PrintMembers(members)) && Next(s, pos + 1 + |PrintMembers(members)|, '}')
    ensures members.Cons? ==> MemberStarts(pos + 1, members) != [] && MemberStarts(pos + 1, members)[0] == pos + 1
  {
    Enclosed(s, pos, '{', PrintMembers(members), '}');
    if members.Cons? {
      FirstMember(s, pos + 1, members);
      MemberStartsUnfold(pos + 1, members);
    }
  }

  /** At the last level an empty container can be skipped, but not iterated. */
  lemma EmptyAtLastLevel(s: string, pos: nat)
    requires CheckInit(s, pos, MAX_DEPTH) && (At(s, pos, Print(Arr(Nil))) || At(s, pos, Print(Obj(Nil))))
    ensures SkipElement(s, pos, MAX_DEPTH) == Ok(pos + 2) && Begin(s, pos, MAX_DEPTH) == Thrown
    ensures SizeOf(s, pos, MAX_DEPTH) == Thrown
  {
    if At(s, pos, Print(Arr(Nil))) {
      BeginArray(s, pos, MAX_DEPTH, Nil);
      ArraySkip(s, pos, MAX_DEPTH, Nil);
    } else {
      BeginObject(s, pos, MAX_DEPTH, Nil);
      ObjectSkip(s, pos, MAX_DEPTH, Nil);
    }
  }

  lemma NamesOfMembers(s: string, pos: nat, members: List<Member>, key: string, decode: string -> Result<string>)
    requires ValidMembers(members) && At(s, pos, PrintMembers(members))
    ensures var starts, same := MemberStarts(pos, members), SameNames(members, key, decode);
            forall i :: 0 <= i < |starts| ==> starts[i] < |s| && NameIs(s, starts[i], key, decode) == same[i]
  {
    var starts := MemberStarts(pos, members);
    forall i | 0 <= i < |starts|
      ensures starts[i] < |s| && NameIs(s, starts[i], key, decode) == SameNames(members, key, decode)[i]
    {
      StartsOfMembers(s, pos, members, i);
      ValidName(members, i);
      NameOfMember(s, starts[i], Nth(members, i), key, decode);
    }
  }

  lemma ObjectChain(s: string, pos: nat, level: nat, members: List<Member>)
    requires ValidMembers(members) && CheckInit(s, pos, level) && At(s, pos, Print(Obj(members)))
    requires level + 1 <= MAX_DEPTH
    ensures GetType(s, pos) == Ok(ObjectType) && Begin(s, pos, level) == Ok(FirstOf(MemberStarts(pos + 1, members)))
    ensures At(s, pos + 1, PrintMembers(members))
    ensures Chain(s, level + 1, MemberStarts(pos + 1, members), MemberOutcomes(members, level + 1))
  {
    BeginObject(s, pos, level, members);
    if members.Cons? { ChainOfMembers(s, pos + 1, level + 1, members, pos + 1 + |PrintMembers(members)|); }
  }

  /** Iteration over a printed object visits its members in order, all of them if and only if the members are not too
      deep, the value of every member but the last is good and the last is good or a number with a plus sign. */
  lemma ObjectIteration(s: string, pos: nat, level: nat, members: List<Member>)
    requires ValidMembers(members) && CheckInit(s, pos, level) && At(s, pos, Print(Obj(members)))
    ensures var all, outs := Iterated(s, pos, level), MemberOutcomes(members, level + 1);
            && all == (if level + 1 <= MAX_DEPTH then Visited(MemberStarts(pos + 1, members), outs, 0) else Thrown)
            && (all == Ok(MemberStarts(pos + 1, members)) <==> level + 1 <= MAX_DEPTH && SeesAll(outs, 0))
  {
    BeginObject(s, pos, level, members);
    if level + 1 <= MAX_DEPTH {
      ObjectChain(s, pos, level, members);
      WholeWalk(s, level + 1, MemberStarts(pos + 1, members), MemberOutcomes(members, level + 1));
    }
  }

  /** Search in any printed object: the first member whose decoded name is the key, unless the iteration stops before
      it. */
  lemma ObjectSearch(s: string, pos: nat, level: nat, members: List<Member>, key: string,
                     decode: string -> Result<string>)
    requires ValidMembers(members) && CheckInit(s, pos, level) && At(s, pos, Print(Obj(members)))
    ensures SearchOf(s, pos, level, key, decode)
            == if level + 1 <= MAX_DEPTH
               then FirstTrue(MemberStarts(pos + 1, members), MemberOutcomes(members, level + 1),
                              SameNames(members, key, decode), 0)
               else Thrown
  {
    BeginObject(s, pos, level, members);
    if level + 1 <= MAX_DEPTH { ObjectFound(s, pos, level, members, key, decode); }
  }

  lemma ObjectFound(s: string, pos: nat, level: nat, members: List<Member>, key: string,
                    decode: string -> Result<string>)
    requires ValidMembers(members) && CheckInit(s, pos, level) && At(s, pos, Print(Obj(members)))
    requires level + 1 <= MAX_DEPTH
    ensures Begin(s, pos, level).Ok?
    ensures Found(s, Begin(s, pos, level).value, level + 1, key, decode)
            == FirstTrue(MemberStarts(pos + 1, members), MemberOutcomes(members, level + 1),
                         SameNames(members, key, decode), 0)
  {
    ObjectChain(s, pos, level, members);
    NamesOfMembers(s, pos + 1, members, key, decode);
    WholeSearch(s, level + 1, MemberStarts(pos + 1, members), MemberOutcomes(members, level + 1),
                SameNames(members, key, decode), key, decode);
  }

  lemma {:induction false} StartsIncrease(pos: nat, members: List<Member>, i: nat, j: nat)
    requires i < j < Length(members)
    ensures pos <= MemberOffset(pos, members, i) < MemberOffset(pos, members, j)
    decreases members
  {
    var next := pos + |PrintMember(members.head)| + 1;
    if i > 0 { StartsIncrease(next, members.tail, i - 1, j - 1); }
    else if j > 1 { StartsIncrease(next, members.tail, 0, j - 1); }
  }

  /** The search finds the j-th member if and only if its decoded name is the key, the names before it are decoded and
      differ, and the values before it are good. */
  lemma SearchFindsFirst(s: string, pos: nat, level: nat, members: List<Member>, key: string,
                         decode: string -> Result<string>, j: nat)
    requires ValidMembers(members) && CheckInit(s, pos, level) && At(s, pos, Print(Obj(members)))
    requires j < Length(members)
    ensures var same, outs := SameNames(members, key, decode), MemberOutcomes(members, level + 1);
            SearchOf(s, pos, level, key, decode) == Ok(Element(MemberStarts(pos + 1, members)[j]))
            <==> level + 1 <= MAX_DEPTH && same[j] == Ok(true)
                 && forall i :: 0 <= i < j ==> same[i] == Ok(false) && outs[i].Passed?
  {
    ObjectSearch(s, pos, level, members, key, decode);
    FirstMemberFound(pos + 1, level + 1, members, key, decode, j);
  }

  lemma FirstMemberFound(pos: nat, level: nat, members: List<Member>, key: string, decode: string -> Result<string>,
                         j: nat)
    requires j < Length(members)
    ensures var starts, outs, same := MemberStarts(pos, members), MemberOutcomes(members, level),
                                      SameNames(members, key, decode);
            FirstTrue(starts, outs, same, 0) == Ok(Element(starts[j]))
            <==> same[j] == Ok(true) && forall i :: 0 <= i < j ==> same[i] == Ok(false) && outs[i].Passed?
  {
    var starts, outs, same := MemberStarts(pos, members), MemberOutcomes(members, level),
                              SameNames(members, key, decode);
    forall i, i' | 0 <= i < i' < |starts| ensures starts[i] != starts[i'] {
      StartsIncrease(pos, members, i, i');
    }
    FindsFirst(starts, outs, same, j, 0);
  }
}
