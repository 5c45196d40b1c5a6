/** How deep a text may nest: 32 brackets, not more. */
module JsonNesting {
  import opened JsonTree
  import opened JsonBuild
  import opened JsonParse
  import opened JsonPrinted
  import opened JsonLex
  import opened JsonText

  /** `n` opening brackets, `n` closing brackets, and `rest`. */
  function Brackets(n: nat, rest: string): string {
    if n == 0 then rest else "[" + Brackets(n - 1, "]" + rest)
  }

  /** `n` arrays, each the only element of the one before. */
  function Nested(n: nat): Node
    requires n > 0
  {
    Arr(if n == 1 then [] else [Nested(n - 1)])
  }

  lemma {:induction false} LexesNested(n: nat, rest: string)
    requires n > 0
    ensures Lex(Brackets(n, rest)) == Prepend(PrintedToks(Nested(n)), Lex(rest))
  {
    hide Lex;
    var inner := Brackets(n - 1, "]" + rest);
    LexesMark('[', inner);
    LexesMark(']', rest);
    if n == 1 {
      assert PrintedToks(Nested(n)) == [LBracket] + [RBracket];
      PrependTwice([LBracket], [RBracket], Lex(rest));
    } else {
      var ts := PrintedToks(Nested(n - 1));
      LexesNested(n - 1, "]" + rest);
      assert PrintedToks(Nested(n)) == [LBracket] + (ts + [RBracket]);
      PrependTwice(ts, [RBracket], Lex(rest));
      PrependTwice([LBracket], ts + [RBracket], Lex(rest));
    }
  }

  lemma {:induction false} NestedShape(hash: string -> nat, n: nat)
    requires n > 0
    ensures CommasRight(Nested(n)) && Height(Nested(n)) == n && Spelled(Nested(n)) == Nested(n)
    ensures Built(hash, Nested(n)) == Nested(n)
  {
    if n > 1 {
      NestedShape(hash, n - 1);
      assert [Nested(n - 1)][1..] == [];
    }
  }

  /** A text of nested arrays is parsed up to 32 of them, and refused beyond. */
  lemma {:induction false} NestingExactly(hash: string -> nat, n: nat)
    requires n > 0
    ensures Parse(hash, Brackets(n, "")) == if n <= 32 then Tree(Nested(n)) else Refused
  {
    hide Lex, Analyze, CommasRight, Built;
    LexesNested(n, "");
    assert Lex("") == Lexed([Eof]) by { LexNothing(); }
    NestedShape(hash, n);
    PrintedExact(Nested(n), [Eof], 0);
  }
}
