/** The limit on nesting, in brackets. */
module JsonDepth {
  import opened JsonText
  import opened JsonSkip
  import opened JsonPrinted

  function Repeat(c: char, n: nat): (s: string)
    ensures |s| == n
  {
    if n == 0 then "" else [c] + Repeat(c, n - 1)
  }

  /** n arrays, each the only item of the next, the innermost one empty. */
  function Nested(n: nat): Value
    requires n >= 1
  {
    Arr(if n == 1 then Nil else Cons(Nested(n - 1), Nil))
  }

  lemma {:induction false} RepeatLast(c: char, n: nat)
    ensures Repeat(c, n) + [c] == [c] + Repeat(c, n)
  {
    if n > 0 {
      RepeatLast(c, n - 1);
      assert [c] + Repeat(c, n - 1) + [c] == [c] + (Repeat(c, n - 1) + [c]);
    }
  }

  lemma {:induction false} NestedText(n: nat)
    requires n >= 1
    ensures Valid(Nested(n)) && !HasPlus(Nested(n)) && Depth(Nested(n)) == n - 1
    ensures Print(Nested(n)) == Repeat('[', n) + Repeat(']', n)
  {
    if n == 1 {
      assert Repeat('[', 1) == ['['] && Repeat(']', 1) == [']'];
    } else {
      NestedText(n - 1);
      var open, close := Repeat('[', n - 1), Repeat(']', n - 1);
      assert PrintItems(Cons(Nested(n - 1), Nil)) == open + close;
      RepeatLast(']', n - 1);
      assert ['['] + (open + close) + [']'] == (['['] + open) + (close + [']']);
    }
  }

  /** Up to 101 brackets can be nested: the innermost array, being empty, has nothing on level 101. */
  lemma BracketsSkip(n: nat)
    requires n >= 1
    ensures var s := Repeat('[', n) + Repeat(']', n);
            CheckInit(s, 0, 0) && SkipElement(s, 0, 0) == if n <= 101 then Ok(2 * n) else Thrown
  {
    var s := Repeat('[', n) + Repeat(']', n);
    NestedText(n);
    assert s + "" == s;
    SkipUndoesPrint(Nested(n), "");
  }
}
