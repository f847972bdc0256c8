/**
 Parsing of given tokens by both routes, and how deep input may nest.
 */
module ParsedTokens {
  import opened Values
  import opened Document
  import opened ParseTree
  import opened CanonicalForm
  import IrParser
  import Grammar
  import ParserRoutes
  import D = DirectParser
  import opened TypeReferences
  import S = Schema

  // ----- Values -----

  /** Single tokens: numbers, strings and names. */
  lemma TokensAreRead(text: string, raw: string, block: bool, name: Ident, rest: Stream, isConst: bool, depth: nat,
                      k: Reading)
    ensures D.Literal(Next(IntToken(text), rest), isConst, depth, k) == Parsed(Int(k.integer(text)), rest)
    ensures D.Literal(Next(FloatToken(text), rest), isConst, depth, k) == Parsed(Float(k.number(text)), rest)
    ensures D.Literal(Next(StringToken(raw, block), rest), isConst, depth, k) == Parsed(Str(k.text(raw, block)), rest)
    ensures D.Literal(Next(NameToken("true"), rest), isConst, depth, k) == Parsed(Bool(true), rest)
    ensures D.Literal(Next(NameToken("false"), rest), isConst, depth, k) == Parsed(Bool(false), rest)
    ensures D.Literal(Next(NameToken("null"), rest), isConst, depth, k) == Parsed(Undef, rest)
    ensures name !in {"true", "false", "null"} ==>
              D.Literal(Next(NameToken(name), rest), isConst, depth, k) == Parsed(Enum(name), rest)
  {
  }

  /** Variables, but not in constants; and tokens no value begins with. */
  lemma VariablesAreRead(name: Ident, t: Token, rest: Stream, depth: nat, k: Reading)
    ensures D.Literal(Next(Dollar, Next(NameToken(name), rest)), false, depth, k) == Parsed(Variable(name), rest)
    ensures D.Literal(Next(Dollar, Next(NameToken(name), rest)), true, depth, k) == Failed
    ensures t in {Colon, Bang, At, Spread, Equals, Amp, Pipe, LParen, RParen, RBracket, RBrace} ==>
              D.Literal(Next(t, rest), false, depth, k) == Failed
    ensures D.Literal(End, false, depth, k) == Failed
  {
  }

  /** `[]` and `[1]`. */
  lemma ListsAreRead(a: string, rest: Stream, isConst: bool, k: Reading)
    ensures D.Literal(Next(LBracket, Next(RBracket, rest)), isConst, 0, k) == Parsed(List([]), rest)
    ensures D.Literal(Next(LBracket, Next(IntToken(a), Next(RBracket, rest))), isConst, 0, k)
            == Parsed(List([Int(k.integer(a))]), rest)
  {
    OneItem(a, Next(RBracket, rest), isConst, 1, k);
  }

  /** `{x: 1}`. */
  lemma ObjectIsRead(a: string, rest: Stream, isConst: bool, k: Reading)
    ensures D.Literal(Next(LBrace, Next(NameToken("x"), Next(Colon, Next(IntToken(a), Next(RBrace, rest))))), isConst,
                      0, k)
            == Parsed(Object(map["x" := Int(k.integer(a))]), rest)
  {
    OneEntry(a, Next(RBrace, rest), isConst, 1, k);
  }

  /** Of `x: 1 x: 2` the second counts. */
  lemma LastIsRead(a: string, b: string, rest: Stream, isConst: bool, k: Reading)
    ensures D.Entries(Next(NameToken("x"), Next(Colon, Next(IntToken(a),
                      Next(NameToken("x"), Next(Colon, Next(IntToken(b), Next(RBrace, rest))))))), isConst, RBrace,
                      0, k)
            == Parsed(map["x" := Int(k.integer(b))], Next(RBrace, rest))
  {
    OneEntry(b, Next(RBrace, rest), isConst, 0, k);
    assert map["x" := Int(k.integer(a))] + map["x" := Int(k.integer(b))] == map["x" := Int(k.integer(b))];
  }

  lemma OneItem(a: string, close: Stream, isConst: bool, depth: nat, k: Reading)
    requires Starts(close, RBracket)
    ensures D.Items(close, isConst, depth, k) == Parsed([], close)
    ensures D.Items(Next(IntToken(a), close), isConst, depth, k) == Parsed([Int(k.integer(a))], close)
  {
    var ts := Next(IntToken(a), close);
    assert D.Literal(ts, isConst, depth, k) == Parsed(Int(k.integer(a)), close);
    assert [Int(k.integer(a))] + [] == [Int(k.integer(a))];
  }

  lemma OneEntry(a: string, close: Stream, isConst: bool, depth: nat, k: Reading)
    requires Starts(close, RBrace)
    ensures D.Entries(Next(NameToken("x"), Next(Colon, Next(IntToken(a), close))), isConst, RBrace, depth, k)
            == Parsed(map["x" := Int(k.integer(a))], close)
  {
    assert D.Entries(close, isConst, RBrace, depth, k) == Parsed(map[], close);
    assert map["x" := Int(k.integer(a))] + map[] == map["x" := Int(k.integer(a))];
  }

  // ----- Selections -----

  /** Nothing that belongs to a field follows. */
  predicate Ends(ts: Stream) {
    !Starts(ts, Colon) && !Starts(ts, LParen) && !Starts(ts, At) && !Starts(ts, LBrace)
  }

  /** `b` and `a: b`. */
  lemma BareFieldIsRead(a: Ident, b: Ident, rest: Stream, depth: nat, k: Reading)
    requires Ends(rest)
    ensures D.Select(Next(NameToken(b), rest), depth, k) == Parsed(Field(None, b, None, [], Absent), rest)
    ensures D.Select(Next(NameToken(a), Next(Colon, Next(NameToken(b), rest))), depth, k)
            == Parsed(Field(Some(a), b, None, [], Absent), rest)
  {
    assert D.FieldBody(None, b, rest, depth, k) == Parsed(Field(None, b, None, [], Absent), rest);
    assert D.FieldBody(Some(a), b, rest, depth, k) == Parsed(Field(Some(a), b, None, [], Absent), rest);
  }

  /** `@d` and `@d @e`. */
  lemma DirectivesAreRead(d: Ident, e: Ident, rest: Stream, depth: nat, k: Reading)
    requires Ends(rest)
    ensures D.Directives(Next(At, Next(NameToken(d), rest)), depth, k) == Parsed([Directive(d, None)], rest)
    ensures D.Directives(Next(At, Next(NameToken(d), Next(At, Next(NameToken(e), rest)))), depth, k)
            == Parsed([Directive(d, None), Directive(e, None)], rest)
  {
    assert [Directive(e, None)] + [] == [Directive(e, None)] && [Directive(d, None)] + [] == [Directive(d, None)];
    OneDirective(e, rest, [], rest, depth, k);
    OneDirective(d, rest, [], rest, depth, k);
    OneDirective(d, Next(At, Next(NameToken(e), rest)), [Directive(e, None)], rest, depth, k);
    assert [Directive(d, None)] + [Directive(e, None)] == [Directive(d, None), Directive(e, None)];
  }

  lemma OneDirective(d: Ident, ts: Stream, others: seq<Directive>, rest: Stream, depth: nat, k: Reading)
    requires !Starts(ts, LParen) && D.Directives(ts, depth, k) == Parsed(others, rest)
    ensures D.Directives(Next(At, Next(NameToken(d), ts)), depth, k) == Parsed([Directive(d, None)] + others, rest)
  {
    assert D.OptionalArguments(ts, depth, k) == Parsed(None, ts);
  }

  /** `b @d` keeps its directive. */
  lemma DirectedFieldIsRead(b: Ident, d: Ident, rest: Stream, depth: nat, k: Reading)
    requires Ends(rest)
    ensures D.Select(Next(NameToken(b), Next(At, Next(NameToken(d), rest))), depth, k)
            == Parsed(Field(None, b, None, [Directive(d, None)], Absent), rest)
  {
    var ts := Next(At, Next(NameToken(d), rest));
    DirectivesAreRead(d, d, rest, depth, k);
    assert D.OptionalArguments(ts, depth, k) == Parsed(None, ts);
    assert D.FieldBody(None, b, ts, depth, k) == Parsed(Field(None, b, None, [Directive(d, None)], Absent), rest);
  }

  /** `b(x: 1)` keeps its argument. */
  lemma ArgumentIsRead(b: Ident, n: string, rest: Stream, depth: nat, k: Reading)
    requires Ends(rest)
    ensures D.Select(Next(NameToken(b), Next(LParen, Next(NameToken("x"), Next(Colon, Next(IntToken(n),
                     Next(RParen, rest)))))), depth, k)
            == Parsed(Field(None, b, Some(map["x" := Int(k.integer(n))]), [], Absent), rest)
  {
    var ts := Next(LParen, Next(NameToken("x"), Next(Colon, Next(IntToken(n), Next(RParen, rest)))));
    OneArgument(n, rest, depth, k);
    assert D.Directives(rest, depth, k) == Parsed([], rest);
    assert D.FieldBody(None, b, ts, depth, k)
        == Parsed(Field(None, b, Some(map["x" := Int(k.integer(n))]), [], Absent), rest);
  }

  lemma OneArgument(n: string, rest: Stream, depth: nat, k: Reading)
    ensures D.OptionalArguments(Next(LParen, Next(NameToken("x"), Next(Colon, Next(IntToken(n), Next(RParen, rest))))),
                                depth, k)
            == Parsed(Some(map["x" := Int(k.integer(n))]), rest)
  {
    var end := Next(RParen, rest);
    assert D.Entries(end, false, RParen, depth, k) == Parsed(map[], end);
    assert map["x" := Int(k.integer(n))] + map[] == map["x" := Int(k.integer(n))];
    assert D.Entries(Next(NameToken("x"), Next(Colon, Next(IntToken(n), end))), false, RParen, depth, k)
        == Parsed(map["x" := Int(k.integer(n))], end);
  }

  /** `{ c }` is a selection set of one field. */
  lemma SetOfOneIsRead(c: Ident, rest: Stream, depth: nat, k: Reading)
    requires depth < 512
    ensures D.SelectionSet(Next(LBrace, Next(NameToken(c), Next(RBrace, rest))), depth, k)
            == Parsed([Field(None, c, None, [], Absent)], rest)
  {
    var close := Next(RBrace, rest);
    BareFieldIsRead(c, c, close, depth + 1, k);
    assert D.Selections(close, depth + 1, k) == Parsed([], close);
    assert [Field(None, c, None, [], Absent)] + [] == [Field(None, c, None, [], Absent)];
    assert D.Selections(Next(NameToken(c), close), depth + 1, k) == Parsed([Field(None, c, None, [], Absent)], close);
  }

  /** `{ }` and `( )` are refused. */
  lemma EmptySetsAreRefused(rest: Stream, depth: nat, isConst: bool, k: Reading)
    ensures D.SelectionSet(Next(LBrace, Next(RBrace, rest)), depth, k) == Failed
    ensures D.Arguments(Next(LParen, Next(RParen, rest)), isConst, depth, k) == Failed
  {
  }

  /** `b { c }`. */
  lemma NestedFieldIsRead(b: Ident, c: Ident, rest: Stream, depth: nat, k: Reading)
    requires depth < 512
    ensures D.Select(Next(NameToken(b), Next(LBrace, Next(NameToken(c), Next(RBrace, rest)))), depth, k)
            == Parsed(Field(None, b, None, [], Present([Field(None, c, None, [], Absent)])), rest)
  {
    var ts := Next(LBrace, Next(NameToken(c), Next(RBrace, rest)));
    SetOfOneIsRead(c, rest, depth, k);
    assert D.Directives(ts, depth, k) == Parsed([], ts) && D.OptionalArguments(ts, depth, k) == Parsed(None, ts);
    assert D.FieldBody(None, b, ts, depth, k)
        == Parsed(Field(None, b, None, [], Present([Field(None, c, None, [], Absent)])), rest);
  }

  /** `...F`; a fragment cannot be called `on`. */
  lemma SpreadIsRead(f: Ident, rest: Stream, depth: nat, k: Reading)
    requires Ends(rest) && !StartsWithName(rest)
    ensures f != "on" ==>
              D.Select(Next(Spread, Next(NameToken(f), rest)), depth, k) == Parsed(FragmentSpread(f, []), rest)
    ensures D.Select(Next(Spread, Next(NameToken("on"), rest)), depth, k) == Failed
  {
    assert D.Directives(rest, depth, k) == Parsed([], rest);
  }

  /** `... on T { c }` and `... { c }`. */
  lemma InlineFragmentIsRead(t: Ident, c: Ident, rest: Stream, depth: nat, k: Reading)
    requires depth < 512
    ensures var set1 := Next(LBrace, Next(NameToken(c), Next(RBrace, rest)));
            && D.Select(Next(Spread, Next(NameToken("on"), Next(NameToken(t), set1))), depth, k)
               == Parsed(InlineFragment(Some(t), [], [Field(None, c, None, [], Absent)]), rest)
            && D.Select(Next(Spread, set1), depth, k)
               == Parsed(InlineFragment(None, [], [Field(None, c, None, [], Absent)]), rest)
  {
    var set1 := Next(LBrace, Next(NameToken(c), Next(RBrace, rest)));
    SetOfOneIsRead(c, rest, depth, k);
    assert D.Directives(set1, depth, k) == Parsed([], set1);
    assert D.Inline(Some(t), set1, depth, k)
           == Parsed(InlineFragment(Some(t), [], [Field(None, c, None, [], Absent)]), rest);
    assert D.Inline(None, set1, depth, k) == Parsed(InlineFragment(None, [], [Field(None, c, None, [], Absent)]), rest);
  }

  // ----- Nesting -----

  /** `n` lists within one another. */
  function Lists(n: nat, rest: Stream): Stream {
    if n == 0 then Next(NameToken("null"), rest) else Next(LBracket, Lists(n - 1, Next(RBracket, rest)))
  }

  /** `n` selection sets within one another: `a { a { ... } }`. */
  function Sets(n: nat, rest: Stream): Stream {
    if n == 0 then Next(NameToken("a"), rest) else Next(NameToken("a"), Next(LBrace, Sets(n - 1, Next(RBrace, rest))))
  }

  function NestedList(n: nat): (v: IrValue)
    ensures ValueNesting(v) == n && ValueOk(v, true) && ValueOk(v, false)
  {
    if n == 0 then IrNull
    else
      var of := NestedList(n - 1);
      assert ItemsNesting([of]) == ValueNesting(of) by { assert [of][1..] == []; }
      IrList([of])
  }

  function NestedField(n: nat): (s: IrSelection)
    ensures SelectionNesting(s) == n && SelectionOk(s)
  {
    if n == 0 then IrField("", "a", [], [], NoSet)
    else
      var of := NestedField(n - 1);
      assert SelectionsNesting([of]) == SelectionNesting(of) by { assert [of][1..] == []; }
      assert SelectionsOk([of]) && SetOk(SetOf([of]));
      IrField("", "a", [], [], SetOf([of]))
  }

  lemma {:induction false} ListsAreWritten(n: nat, rest: Stream)
    ensures WriteValue(NestedList(n), rest) == Lists(n, rest)
    decreases n
  {
    if n > 0 {
      var of := NestedList(n - 1);
      assert [of][1..] == [] && WriteItems([], Next(RBracket, rest)) == Next(RBracket, rest);
      ListsAreWritten(n - 1, Next(RBracket, rest));
    }
  }

  lemma {:induction false} SetsAreWritten(n: nat, rest: Stream)
    ensures WriteSelection(NestedField(n), rest) == Sets(n, rest)
    decreases n
  {
    if n > 0 {
      var of := NestedField(n - 1);
      assert [of][1..] == [] && WriteSelections([], Next(RBrace, rest)) == Next(RBrace, rest);
      SetsAreWritten(n - 1, Next(RBrace, rest));
      assert WriteSet(SetOf([of]), rest) == Next(LBrace, Sets(n - 1, Next(RBrace, rest)));
      assert WriteDirectives([], WriteSet(SetOf([of]), rest)) == WriteSet(SetOf([of]), rest);
    }
  }

  /** The direct route reads 512 lists within one another and refuses 513; the
      intermediate route reads any number. */
  lemma ListsNestAtMost512(n: nat, rest: Stream, isConst: bool, k: Reading)
    ensures D.Literal(Lists(n, rest), isConst, 0, k).Parsed? <==> n <= 512
    ensures IrParser.Value(Lists(n, rest), isConst) == Parsed(NestedList(n), rest)
  {
    ListsAreWritten(n, rest);
    Grammar.ValueReads(NestedList(n), rest, isConst);
    ParserRoutes.WrittenValueParses(NestedList(n), rest, isConst, 0, k);
  }

  /** So it is with selection sets. */
  lemma SetsNestAtMost512(n: nat, rest: Stream, k: Reading)
    ensures D.Select(Sets(n, Next(RBrace, rest)), 0, k).Parsed? <==> n <= 512
    ensures IrParser.Selection(Sets(n, Next(RBrace, rest))) == Parsed(NestedField(n), Next(RBrace, rest))
  {
    SetsAreWritten(n, Next(RBrace, rest));
    Grammar.SelectionReads(NestedField(n), Next(RBrace, rest));
    ParserRoutes.WrittenSelectionParses(NestedField(n), Next(RBrace, rest), 0, k);
  }

  // ----- Type references -----

  /** `T`, `T!`, `[T]` and `[T!]!`. */
  lemma TypesAreRead(rest: Stream)
    requires !Starts(rest, Bang)
    ensures Reference(Next(NameToken("T"), rest)) == Parsed(S.Named("T"), rest)
    ensures Reference(Next(NameToken("T"), Next(Bang, rest))) == Parsed(S.NonNull(S.Named("T")), rest)
    ensures Reference(Next(LBracket, Next(NameToken("T"), Next(RBracket, rest))))
            == Parsed(S.ListOf(S.Named("T")), rest)
    ensures Reference(Next(LBracket, Next(NameToken("T"), Next(Bang, Next(RBracket, Next(Bang, rest))))))
            == Parsed(S.NonNull(S.ListOf(S.NonNull(S.Named("T")))), rest)
  {
    assert Reference(Next(NameToken("T"), Next(RBracket, rest))) == Parsed(S.Named("T"), Next(RBracket, rest));
    var inner := Next(NameToken("T"), Next(Bang, Next(RBracket, Next(Bang, rest))));
    assert Reference(inner) == Parsed(S.NonNull(S.Named("T")), Next(RBracket, Next(Bang, rest)));
  }
}
