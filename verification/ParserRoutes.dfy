/**
 The two parsing routes agree: the direct one gives what the intermediate one
 gives after building and converting, and fails besides only by its depth limit.
 */
module ParserRoutes {
  import opened Values
  import opened Document
  import opened ParseTree
  import opened CanonicalForm
  import IrParser
  import D = DirectParser
  import Grammar

  /** What the direct route should give: the canonical form, if within the depth limit. */
  function ValueVia(r: Parsed<IrValue>, depth: nat, k: Reading): Parsed<Value> {
    if r.Parsed? && depth + ValueNesting(r.value) <= D.MAX_DEPTH then Parsed(CanonicalValue(r.value, k), r.rest)
    else Failed
  }

  function ItemsVia(r: Parsed<seq<IrValue>>, depth: nat, k: Reading): Parsed<seq<Value>> {
    if r.Parsed? && depth + ItemsNesting(r.value) <= D.MAX_DEPTH then Parsed(CanonicalItems(r.value, k), r.rest)
    else Failed
  }

  function EntriesVia(r: Parsed<seq<IrEntry>>, depth: nat, k: Reading): Parsed<map<string, Value>> {
    if r.Parsed? && depth + EntriesNesting(r.value) <= D.MAX_DEPTH then Parsed(CanonicalEntries(r.value, k), r.rest)
    else Failed
  }

  function ArgumentsVia(r: Parsed<seq<IrEntry>>, depth: nat, k: Reading): Parsed<Option<map<string, Value>>> {
    if r.Parsed? && depth + EntriesNesting(r.value) <= D.MAX_DEPTH then Parsed(CanonicalArguments(r.value, k), r.rest)
    else Failed
  }

  function DirectivesVia(r: Parsed<seq<IrDirective>>, depth: nat, k: Reading): Parsed<seq<Directive>> {
    if r.Parsed? && depth + DirectivesNesting(r.value) <= D.MAX_DEPTH
    then Parsed(CanonicalDirectives(r.value, k), r.rest) else Failed
  }

  function SetVia(r: Parsed<IrSelectionSet>, depth: nat, k: Reading): Parsed<seq<Selection>> {
    if r.Parsed? && r.value.SetOf? && depth + SetNesting(r.value) <= D.MAX_DEPTH
    then Parsed(CanonicalSelections(r.value.selections, k), r.rest) else Failed
  }

  function SelectionsVia(r: Parsed<seq<IrSelection>>, depth: nat, k: Reading): Parsed<seq<Selection>> {
    if r.Parsed? && depth + SelectionsNesting(r.value) <= D.MAX_DEPTH
    then Parsed(CanonicalSelections(r.value, k), r.rest) else Failed
  }

  function SelectionVia(r: Parsed<IrSelection>, depth: nat, k: Reading): Parsed<Selection> {
    if r.Parsed? && depth + SelectionNesting(r.value) <= D.MAX_DEPTH then Parsed(CanonicalSelection(r.value, k), r.rest)
    else Failed
  }

  /** Values: the routes agree on every token stream, depth and reading. */
  lemma {:induction false} ValueRoutesAgree(ts: Stream, isConst: bool, depth: nat, k: Reading)
    requires depth <= D.MAX_DEPTH
    ensures D.Literal(ts, isConst, depth, k) == ValueVia(IrParser.Value(ts, isConst), depth, k)
    decreases Length(ts), 1
  {
    if ts.Next? {
      match ts.token
      case LBracket => ListRoutesAgree(ts, isConst, depth, k);
      case LBrace => ObjectRoutesAgree(ts, isConst, depth, k);
      case _ =>
    }
  }

  lemma {:induction false} ListRoutesAgree(ts: Stream, isConst: bool, depth: nat, k: Reading)
    requires depth <= D.MAX_DEPTH && Starts(ts, LBracket)
    ensures D.Literal(ts, isConst, depth, k) == ValueVia(IrParser.Value(ts, isConst), depth, k)
    decreases Length(ts), 0
  {
    if depth < D.MAX_DEPTH {
      ItemsRoutesAgree(ts.rest, isConst, depth + 1, k);
    }
  }

  lemma {:induction false} ObjectRoutesAgree(ts: Stream, isConst: bool, depth: nat, k: Reading)
    requires depth <= D.MAX_DEPTH && Starts(ts, LBrace)
    ensures D.Literal(ts, isConst, depth, k) == ValueVia(IrParser.Value(ts, isConst), depth, k)
    decreases Length(ts), 0
  {
    if depth < D.MAX_DEPTH {
      EntriesRoutesAgree(ts.rest, isConst, RBrace, depth + 1, k);
    }
  }

  lemma {:induction false} ItemsRoutesAgree(ts: Stream, isConst: bool, depth: nat, k: Reading)
    requires depth <= D.MAX_DEPTH
    ensures D.Items(ts, isConst, depth, k) == ItemsVia(IrParser.Items(ts, isConst), depth, k)
    decreases Length(ts), 2
  {
    if !Starts(ts, RBracket) {
      ValueRoutesAgree(ts, isConst, depth, k);
      var first := IrParser.Value(ts, isConst);
      if first.Parsed? {
        ItemsRoutesAgree(first.rest, isConst, depth, k);
        var others := IrParser.Items(first.rest, isConst);
        if others.Parsed? {
          var all := [first.value] + others.value;
          ItemsCons(all, k);
          assert all[1..] == others.value;
        }
      }
    }
  }

  lemma {:induction false} EntriesRoutesAgree(ts: Stream, isConst: bool, close: Token, depth: nat, k: Reading)
    requires depth <= D.MAX_DEPTH
    ensures D.Entries(ts, isConst, close, depth, k) == EntriesVia(IrParser.Entries(ts, isConst, close), depth, k)
    decreases Length(ts), 2
  {
    if !Starts(ts, close) && StartsWithName(ts) && Starts(ts.rest, Colon) {
      assert Length(ts.rest) == 1 + Length(ts.rest.rest);
      ValueRoutesAgree(ts.rest.rest, isConst, depth, k);
      var first := IrParser.Value(ts.rest.rest, isConst);
      if first.Parsed? {
        EntriesRoutesAgree(first.rest, isConst, close, depth, k);
      }
      EntryRoutesAgree(ts, isConst, close, depth, k);
    }
  }

  /** One entry, when the routes agree on its value and on what comes after it. */
  lemma EntryRoutesAgree(ts: Stream, isConst: bool, close: Token, depth: nat, k: Reading)
    requires depth <= D.MAX_DEPTH && !Starts(ts, close) && StartsWithName(ts) && Starts(ts.rest, Colon)
    requires D.Literal(ts.rest.rest, isConst, depth, k) == ValueVia(IrParser.Value(ts.rest.rest, isConst), depth, k)
    requires var first := IrParser.Value(ts.rest.rest, isConst);
             first.Parsed? ==> D.Entries(first.rest, isConst, close, depth, k)
                               == EntriesVia(IrParser.Entries(first.rest, isConst, close), depth, k)
    ensures D.Entries(ts, isConst, close, depth, k) == EntriesVia(IrParser.Entries(ts, isConst, close), depth, k)
  {
    var first := IrParser.Value(ts.rest.rest, isConst);
    if first.Parsed? {
      var others := IrParser.Entries(first.rest, isConst, close);
      if others.Parsed? {
        EntryAhead(IrEntry(ts.token.name, first.value), others.value, k);
      }
    }
  }

  lemma EntryAhead(entry: IrEntry, others: seq<IrEntry>, k: Reading)
    ensures CanonicalEntries([entry] + others, k)
            == map[entry.name := CanonicalValue(entry.value, k)] + CanonicalEntries(others, k)
    ensures EntriesNesting([entry] + others) == Max(ValueNesting(entry.value), EntriesNesting(others))
  {
    EntriesCons([entry] + others, k);
    assert ([entry] + others)[1..] == others;
  }

  lemma ArgumentsRoutesAgree(ts: Stream, depth: nat, k: Reading)
    requires depth <= D.MAX_DEPTH
    ensures D.OptionalArguments(ts, depth, k) == ArgumentsVia(IrParser.OptionalArguments(ts), depth, k)
  {
    if Starts(ts, LParen) {
      EntriesRoutesAgree(ts.rest, false, RParen, depth, k);
    }
  }

  lemma {:induction false} DirectivesRoutesAgree(ts: Stream, depth: nat, k: Reading)
    requires depth <= D.MAX_DEPTH
    ensures D.Directives(ts, depth, k) == DirectivesVia(IrParser.Directives(ts), depth, k)
    decreases Length(ts)
  {
    if Starts(ts, At) && StartsWithName(ts.rest) {
      assert Length(ts.rest) == 1 + Length(ts.rest.rest);
      ArgumentsRoutesAgree(ts.rest.rest, depth, k);
      var arguments := IrParser.OptionalArguments(ts.rest.rest);
      if arguments.Parsed? {
        DirectivesRoutesAgree(arguments.rest, depth, k);
        var others := IrParser.Directives(arguments.rest);
        if others.Parsed? {
          var all := [IrDirective(ts.rest.token.name, arguments.value)] + others.value;
          DirectivesCons(all, k);
          assert all[1..] == others.value;
        }
      }
    }
  }

  lemma {:induction false} SetRoutesAgree(ts: Stream, depth: nat, k: Reading)
    requires depth <= D.MAX_DEPTH
    ensures D.SelectionSet(ts, depth, k) == SetVia(IrParser.SelectionSet(ts), depth, k)
    decreases Length(ts), 0
  {
    if depth < D.MAX_DEPTH && Starts(ts, LBrace) {
      SelectionsRoutesAgree(ts.rest, depth + 1, k);
    }
  }

  lemma {:induction false} SelectionsRoutesAgree(ts: Stream, depth: nat, k: Reading)
    requires depth <= D.MAX_DEPTH
    ensures D.Selections(ts, depth, k) == SelectionsVia(IrParser.Selections(ts), depth, k)
    decreases Length(ts), 3
  {
    if !Starts(ts, RBrace) {
      SelectionRoutesAgree(ts, depth, k);
      var first := IrParser.Selection(ts);
      if first.Parsed? {
        SelectionsRoutesAgree(first.rest, depth, k);
        var others := IrParser.Selections(first.rest);
        if others.Parsed? {
          var all := [first.value] + others.value;
          SelectionsCons(all, k);
          assert all[1..] == others.value;
        }
      }
    }
  }

  /** Selections: the routes agree on every token stream, depth and reading. */
  lemma {:induction false} SelectionRoutesAgree(ts: Stream, depth: nat, k: Reading)
    requires depth <= D.MAX_DEPTH
    ensures D.Select(ts, depth, k) == SelectionVia(IrParser.Selection(ts), depth, k)
    decreases Length(ts), 2
  {
    if !Starts(ts, Spread) {
      FieldRoutesAgree(ts, depth, k);
    } else if Starts(ts.rest, NameToken("on")) {
      if StartsWithName(ts.rest.rest) {
        assert Length(ts.rest) == 2 + Length(ts.rest.rest.rest);
        InlineRoutesAgree(ts.rest.rest.token.name, ts.rest.rest.rest, depth, k);
      }
    } else if Starts(ts.rest, LBrace) || Starts(ts.rest, At) {
      InlineRoutesAgree("", ts.rest, depth, k);
    } else if StartsWithName(ts.rest) {
      DirectivesRoutesAgree(ts.rest.rest, depth, k);
    }
  }

  lemma {:induction false} InlineRoutesAgree(on: string, ts: Stream, depth: nat, k: Reading)
    requires depth <= D.MAX_DEPTH
    ensures D.Inline(BuildSpan(on), ts, depth, k) == SelectionVia(IrParser.Inline(on, ts), depth, k)
    decreases Length(ts), 1
  {
    DirectivesRoutesAgree(ts, depth, k);
    var directives := IrParser.Directives(ts);
    if directives.Failed? {
      return;
    }
    SetRoutesAgree(directives.rest, depth, k);
    var sub := IrParser.SelectionSet(directives.rest);
    if sub.Parsed? {
      InlineForm(on, directives.value, sub.value.selections, k);
    }
  }

  lemma {:induction false} FieldRoutesAgree(ts: Stream, depth: nat, k: Reading)
    requires depth <= D.MAX_DEPTH
    ensures D.FieldOf(ts, depth, k) == SelectionVia(IrParser.Field(ts), depth, k)
    decreases Length(ts), 1
  {
    if StartsWithName(ts) {
      if Starts(ts.rest, Colon) {
        if StartsWithName(ts.rest.rest) {
          assert Length(ts.rest) == 2 + Length(ts.rest.rest.rest);
          BodyRoutesAgree(ts.token.name, ts.rest.rest.token.name, ts.rest.rest.rest, depth, k);
        }
      } else {
        BodyRoutesAgree("", ts.token.name, ts.rest, depth, k);
      }
    }
  }

  lemma {:induction false} BodyRoutesAgree(alias: string, name: Ident, ts: Stream, depth: nat, k: Reading)
    requires depth <= D.MAX_DEPTH
    ensures D.FieldBody(BuildSpan(alias), name, ts, depth, k)
            == SelectionVia(IrParser.FieldBody(alias, name, ts), depth, k)
    decreases Length(ts), 1
  {
    ArgumentsRoutesAgree(ts, depth, k);
    var arguments := IrParser.OptionalArguments(ts);
    if arguments.Failed? {
      return;
    }
    DirectivesRoutesAgree(arguments.rest, depth, k);
    var directives := IrParser.Directives(arguments.rest);
    if directives.Failed? {
      return;
    }
    var body := IrParser.FieldBody(alias, name, ts);
    if !Starts(directives.rest, LBrace) {
      LeafForm(alias, name, arguments.value, directives.value, k);
      assert body.value == IrField(alias, name, arguments.value, directives.value, NoSet);
      return;
    }
    SetRoutesAgree(directives.rest, depth, k);
    var sub := IrParser.SelectionSet(directives.rest);
    if sub.Parsed? {
      FieldForm(alias, name, arguments.value, directives.value, sub.value.selections, k);
      assert body.value == IrField(alias, name, arguments.value, directives.value, sub.value);
    }
  }

  lemma InlineForm(on: string, directives: seq<IrDirective>, selections: seq<IrSelection>, k: Reading)
    ensures CanonicalSelection(IrInline(on, directives, SetOf(selections)), k)
            == InlineFragment(BuildSpan(on), CanonicalDirectives(directives, k), CanonicalSelections(selections, k))
    ensures SelectionNesting(IrInline(on, directives, SetOf(selections)))
            == Max(DirectivesNesting(directives), SetNesting(SetOf(selections)))
  {
    assert BuildSet(SetOf(selections), k) == SetNode(BuildSelections(selections, k));
  }

  lemma FieldForm(alias: string, name: Ident, arguments: seq<IrEntry>, directives: seq<IrDirective>,
                  selections: seq<IrSelection>, k: Reading)
    requires selections != []
    ensures CanonicalSelection(IrField(alias, name, arguments, directives, SetOf(selections)), k)
            == Field(BuildSpan(alias), name, CanonicalArguments(arguments, k), CanonicalDirectives(directives, k),
                     Present(CanonicalSelections(selections, k)))
    ensures SelectionNesting(IrField(alias, name, arguments, directives, SetOf(selections)))
            == Max(EntriesNesting(arguments), Max(DirectivesNesting(directives), SetNesting(SetOf(selections))))
  {
    var sub := BuildSet(SetOf(selections), k);
    assert sub == SetNode(BuildSelections(selections, k));
    assert ConvertSet(sub, k) == Present(CanonicalSelections(selections, k));
  }

  lemma LeafForm(alias: string, name: Ident, arguments: seq<IrEntry>, directives: seq<IrDirective>, k: Reading)
    ensures CanonicalSelection(IrField(alias, name, arguments, directives, NoSet), k)
            == Field(BuildSpan(alias), name, CanonicalArguments(arguments, k), CanonicalDirectives(directives, k),
                     Absent)
    ensures SelectionNesting(IrField(alias, name, arguments, directives, NoSet))
            == Max(EntriesNesting(arguments), DirectivesNesting(directives))
  {
    var sub := BuildSet(NoSet, k);
    assert sub == NoSetNode && SetNesting(NoSet) == 0;
    assert ConvertSet(sub, k) == Absent;
  }

  // ----- Parsing back what was written -----

  /** A selection within the depth limit, written out, is parsed by the direct route
      to its canonical form, consuming exactly what was written; a deeper one is refused. */
  lemma WrittenSelectionParses(s: IrSelection, rest: Stream, depth: nat, k: Reading)
    requires SelectionOk(s) && Grammar.Follows(rest) && depth <= D.MAX_DEPTH
    ensures D.Select(WriteSelection(s, rest), depth, k)
            == if depth + SelectionNesting(s) <= D.MAX_DEPTH then Parsed(CanonicalSelection(s, k), rest) else Failed
  {
    Grammar.SelectionReads(s, rest);
    SelectionRoutesAgree(WriteSelection(s, rest), depth, k);
  }

  lemma WrittenValueParses(v: IrValue, rest: Stream, isConst: bool, depth: nat, k: Reading)
    requires ValueOk(v, isConst) && depth <= D.MAX_DEPTH
    ensures D.Literal(WriteValue(v, rest), isConst, depth, k)
            == if depth + ValueNesting(v) <= D.MAX_DEPTH then Parsed(CanonicalValue(v, k), rest) else Failed
  {
    Grammar.ValueReads(v, rest, isConst);
    ValueRoutesAgree(WriteValue(v, rest), isConst, depth, k);
  }

  /** The direct route accepts exactly the writings of trees within the depth limit. */
  lemma DirectAcceptsExactlyTheGrammar(ts: Stream, depth: nat, k: Reading)
    requires depth <= D.MAX_DEPTH
    ensures var r := D.Select(ts, depth, k);
            r.Parsed? ==>
              exists s :: SelectionOk(s) && ts == WriteSelection(s, r.rest) && r.value == CanonicalSelection(s, k)
                                      && depth + SelectionNesting(s) <= D.MAX_DEPTH
  {
    SelectionRoutesAgree(ts, depth, k);
    Grammar.SelectionWasWritten(ts);
    var r := IrParser.Selection(ts);
    if r.Parsed? {
      assert SelectionOk(r.value) && ts == WriteSelection(r.value, r.rest);
    }
  }
}
