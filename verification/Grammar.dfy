/**
 The grammar behind the parser: a tree written out as tokens is parsed back to
 itself, consuming exactly those tokens, and nothing else is accepted.
 */
module Grammar {
  import opened ParseTree
  import IrParser

  // ----- What is accepted was written out -----

  lemma {:induction false} ValueWasWritten(ts: Stream, isConst: bool)
    ensures var r := IrParser.Value(ts, isConst);
            r.Parsed? ==> ts == WriteValue(r.value, r.rest) && ValueOk(r.value, isConst)
    decreases Length(ts), 1
  {
    if IrParser.Value(ts, isConst).Parsed? {
      match ts.token
      case LBracket => ItemsWereWritten(ts.rest, isConst);
      case LBrace => EntriesWereWritten(ts.rest, isConst, RBrace);
      case _ =>
    }
  }

  lemma {:induction false} ItemsWereWritten(ts: Stream, isConst: bool)
    ensures var r := IrParser.Items(ts, isConst);
            r.Parsed? ==>
              ts == WriteItems(r.value, r.rest) && forall i :: 0 <= i < |r.value| ==> ValueOk(r.value[i], isConst)
    decreases Length(ts), 2
  {
    var r := IrParser.Items(ts, isConst);
    if r.Parsed? && !Starts(ts, RBracket) {
      ValueWasWritten(ts, isConst);
      ItemsWereWritten(IrParser.Value(ts, isConst).rest, isConst);
      assert r.value[1..] == IrParser.Items(IrParser.Value(ts, isConst).rest, isConst).value;
    }
  }

  lemma {:induction false} EntriesWereWritten(ts: Stream, isConst: bool, close: Token)
    ensures var r := IrParser.Entries(ts, isConst, close);
            r.Parsed? ==> ts == WriteEntries(r.value, r.rest) && EntriesOk(r.value, isConst)
    decreases Length(ts), 2
  {
    var r := IrParser.Entries(ts, isConst, close);
    if r.Parsed? && !Starts(ts, close) {
      assert Length(ts.rest) == 1 + Length(ts.rest.rest);
      var first := IrParser.Value(ts.rest.rest, isConst);
      ValueWasWritten(ts.rest.rest, isConst);
      EntriesWereWritten(first.rest, isConst, close);
      assert r.value[1..] == IrParser.Entries(first.rest, isConst, close).value;
    }
  }

  lemma ArgumentsWereWritten(ts: Stream)
    ensures var r := IrParser.OptionalArguments(ts);
            r.Parsed? ==> ts == WriteArguments(r.value, r.rest) && EntriesOk(r.value, false)
  {
    if Starts(ts, LParen) {
      EntriesWereWritten(ts.rest, false, RParen);
    }
  }

  lemma {:induction false} DirectivesWereWritten(ts: Stream)
    ensures var r := IrParser.Directives(ts);
            r.Parsed? ==> ts == WriteDirectives(r.value, r.rest) && DirectivesOk(r.value)
    decreases Length(ts)
  {
    var r := IrParser.Directives(ts);
    if r.Parsed? && Starts(ts, At) {
      assert Length(ts.rest) == 1 + Length(ts.rest.rest);
      var arguments := IrParser.OptionalArguments(ts.rest.rest);
      ArgumentsWereWritten(ts.rest.rest);
      DirectivesWereWritten(arguments.rest);
      assert r.value[1..] == IrParser.Directives(arguments.rest).value;
    }
  }

  lemma {:induction false} SetWasWritten(ts: Stream)
    ensures var r := IrParser.SelectionSet(ts);
            r.Parsed? ==> ts == WriteSet(r.value, r.rest) && SetOk(r.value)
    decreases Length(ts), 0
  {
    if IrParser.SelectionSet(ts).Parsed? {
      SelectionsWereWritten(ts.rest);
    }
  }

  lemma {:induction false} SelectionsWereWritten(ts: Stream)
    ensures var r := IrParser.Selections(ts);
            r.Parsed? ==> ts == WriteSelections(r.value, r.rest) && SelectionsOk(r.value)
    decreases Length(ts), 3
  {
    var r := IrParser.Selections(ts);
    if r.Parsed? && !Starts(ts, RBrace) {
      SelectionWasWritten(ts);
      SelectionsWereWritten(IrParser.Selection(ts).rest);
      assert r.value[1..] == IrParser.Selections(IrParser.Selection(ts).rest).value;
    }
  }

  /** Whatever the parser accepts as a selection is the writing of the tree it
      returns, followed by the tokens it left. */
  lemma {:induction false} SelectionWasWritten(ts: Stream)
    ensures var r := IrParser.Selection(ts);
            r.Parsed? ==> ts == WriteSelection(r.value, r.rest) && SelectionOk(r.value)
    decreases Length(ts), 2
  {
    if IrParser.Selection(ts).Parsed? {
      if !Starts(ts, Spread) {
        FieldWasWritten(ts);
      } else if Starts(ts.rest, NameToken("on")) {
        assert Length(ts.rest) == 2 + Length(ts.rest.rest.rest);
        InlineWasWritten(ts.rest.rest.token.name, ts.rest.rest.rest);
      } else if Starts(ts.rest, LBrace) || Starts(ts.rest, At) {
        InlineWasWritten("", ts.rest);
      } else {
        DirectivesWereWritten(ts.rest.rest);
      }
    }
  }

  lemma {:induction false} InlineWasWritten(on: string, ts: Stream)
    ensures var r := IrParser.Inline(on, ts);
            r.Parsed? ==>
              && r.value.IrInline? && r.value.on == on && SelectionOk(r.value)
              && ts == WriteDirectives(r.value.directives, WriteSet(r.value.sub, r.rest))
    decreases Length(ts), 1
  {
    if IrParser.Inline(on, ts).Parsed? {
      DirectivesWereWritten(ts);
      SetWasWritten(IrParser.Directives(ts).rest);
    }
  }

  lemma {:induction false} FieldWasWritten(ts: Stream)
    ensures var r := IrParser.Field(ts);
            r.Parsed? ==> ts == WriteSelection(r.value, r.rest) && SelectionOk(r.value)
    decreases Length(ts), 1
  {
    if IrParser.Field(ts).Parsed? {
      if Starts(ts.rest, Colon) {
        assert Length(ts.rest) == 2 + Length(ts.rest.rest.rest);
        BodyWasWritten(ts.token.name, ts.rest.rest.token.name, ts.rest.rest.rest);
      } else {
        BodyWasWritten("", ts.token.name, ts.rest);
      }
    }
  }

  lemma {:induction false} BodyWasWritten(alias: string, name: Ident, ts: Stream)
    ensures var r := IrParser.FieldBody(alias, name, ts);
            r.Parsed? ==>
              && r.value.IrField? && r.value.alias == alias && r.value.name == name && SelectionOk(r.value)
              && ts == WriteArguments(r.value.arguments,
                                      WriteDirectives(r.value.directives, WriteSet(r.value.sub, r.rest)))
    decreases Length(ts), 1
  {
    if IrParser.FieldBody(alias, name, ts).Parsed? {
      var arguments := IrParser.OptionalArguments(ts);
      ArgumentsWereWritten(ts);
      DirectivesWereWritten(arguments.rest);
      var rest := IrParser.Directives(arguments.rest).rest;
      if Starts(rest, LBrace) {
        SetWasWritten(rest);
      }
    }
  }

  // ----- What is written out is accepted -----

  lemma {:induction false} ValueReads(v: IrValue, rest: Stream, isConst: bool)
    requires ValueOk(v, isConst)
    ensures IrParser.Value(WriteValue(v, rest), isConst) == Parsed(v, rest)
    decreases v, 0
  {
    match v
    case IrList(items) => ItemsRead(v, items, Next(RBracket, rest), isConst);
    case IrObject(fields) => EntriesReadIn(v, fields, RBrace, Next(RBrace, rest), isConst);
    case _ =>
  }

  lemma {:induction false} ItemsRead(v: IrValue, items: seq<IrValue>, rest: Stream, isConst: bool)
    requires forall i :: 0 <= i < |items| ==> items[i] < v && ValueOk(items[i], isConst)
    requires Starts(rest, RBracket)
    ensures IrParser.Items(WriteItems(items, rest), isConst) == Parsed(items, rest)
    decreases v, 0, |items|
  {
    if items != [] {
      var more := WriteItems(items[1..], rest);
      ValueReads(items[0], more, isConst);
      ItemsRead(v, items[1..], rest, isConst);
      assert items == [items[0]] + items[1..];
      assert !Starts(WriteValue(items[0], more), RBracket);
    }
  }

  lemma {:induction false} EntriesReadIn(v: IrValue, entries: seq<IrEntry>, close: Token, rest: Stream, isConst: bool)
    requires forall i :: 0 <= i < |entries| ==> entries[i].value < v
    requires EntriesOk(entries, isConst) && Starts(rest, close) && !close.NameToken?
    ensures IrParser.Entries(WriteEntries(entries, rest), isConst, close) == Parsed(entries, rest)
    decreases v, 0, |entries|
  {
    if entries != [] {
      ValueReads(entries[0].value, WriteEntries(entries[1..], rest), isConst);
      EntriesReadIn(v, entries[1..], close, rest, isConst);
      assert entries == [entries[0]] + entries[1..];
    }
  }

  lemma ArgumentsRead(arguments: seq<IrEntry>, rest: Stream)
    requires EntriesOk(arguments, false) && (arguments == [] ==> !Starts(rest, LParen))
    ensures IrParser.OptionalArguments(WriteArguments(arguments, rest)) == Parsed(arguments, rest)
  {
    EntriesReadIn(IrObject(arguments), arguments, RParen, Next(RParen, rest), false);
  }

  lemma {:induction false} DirectivesRead(directives: seq<IrDirective>, rest: Stream)
    requires DirectivesOk(directives) && !Starts(rest, At) && !Starts(rest, LParen)
    ensures IrParser.Directives(WriteDirectives(directives, rest)) == Parsed(directives, rest)
    decreases |directives|
  {
    if directives != [] {
      ArgumentsRead(directives[0].arguments, WriteDirectives(directives[1..], rest));
      DirectivesRead(directives[1..], rest);
      assert directives == [directives[0]] + directives[1..];
    }
  }

  /** Tokens that cannot be taken for more of a selection. */
  predicate Follows(rest: Stream) {
    !Starts(rest, Colon) && !Starts(rest, LParen) && !Starts(rest, At) && !Starts(rest, LBrace)
  }

  lemma {:induction false} SetReads(sub: IrSelectionSet, rest: Stream)
    requires sub.SetOf? && SetOk(sub)
    ensures IrParser.SelectionSet(WriteSet(sub, rest)) == Parsed(sub, rest)
    decreases sub, 0
  {
    SelectionsRead(sub, sub.selections, Next(RBrace, rest));
    SelectionStart(sub.selections[0], WriteSelections(sub.selections[1..], Next(RBrace, rest)));
  }

  lemma SelectionStart(s: IrSelection, rest: Stream)
    ensures WriteSelection(s, rest).Next?
    ensures var t := WriteSelection(s, rest).token; t.NameToken? || t == Spread
  {
  }

  lemma {:induction false} SelectionsRead(sub: IrSelectionSet, selections: seq<IrSelection>, rest: Stream)
    requires SelectionsOk(selections) && Starts(rest, RBrace)
    requires forall i :: 0 <= i < |selections| ==> selections[i] < sub
    ensures IrParser.Selections(WriteSelections(selections, rest)) == Parsed(selections, rest)
    decreases sub, 0, |selections|
  {
    if selections != [] {
      var more := WriteSelections(selections[1..], rest);
      SelectionStart(selections[0], more);
      if |selections| > 1 {
        SelectionStart(selections[1], WriteSelections(selections[1..][1..], rest));
      }
      SelectionReads(selections[0], more);
      SelectionsRead(sub, selections[1..], rest);
      assert selections == [selections[0]] + selections[1..];
    }
  }

  /** A selection written out and followed by something else is parsed back. */
  lemma {:induction false} SelectionReads(s: IrSelection, rest: Stream)
    requires SelectionOk(s) && Follows(rest)
    ensures IrParser.Selection(WriteSelection(s, rest)) == Parsed(s, rest)
    decreases s, 2
  {
    match s
    case IrField(_, _, _, _, _) => FieldReads(s, rest);
    case IrSpread(name, directives) => SpreadReads(name, directives, rest);
    case IrInline(_, _, _) => InlineFragmentReads(s, rest);
  }

  lemma SpreadReads(name: Ident, directives: seq<IrDirective>, rest: Stream)
    requires name != "on" && DirectivesOk(directives) && Follows(rest)
    ensures IrParser.Selection(Next(Spread, Next(NameToken(name), WriteDirectives(directives, rest))))
            == Parsed(IrSpread(name, directives), rest)
  {
    DirectivesRead(directives, rest);
  }

  lemma {:induction false} InlineFragmentReads(s: IrSelection, rest: Stream)
    requires s.IrInline? && SelectionOk(s) && Follows(rest)
    ensures IrParser.Selection(WriteSelection(s, rest)) == Parsed(s, rest)
    decreases s, 1
  {
    var body := WriteDirectives(s.directives, WriteSet(s.sub, rest));
    InlineReads(s, rest);
    if s.on != "" {
      var on: Ident := s.on;
      TypedInlineSelection(on, body);
    } else {
      UntypedInlineSelection(body);
    }
  }

  lemma TypedInlineSelection(on: Ident, body: Stream)
    ensures IrParser.Selection(Next(Spread, Next(NameToken("on"), Next(NameToken(on), body))))
            == IrParser.Inline(on, body)
  {
  }

  lemma UntypedInlineSelection(body: Stream)
    requires Starts(body, At) || Starts(body, LBrace)
    ensures IrParser.Selection(Next(Spread, body)) == IrParser.Inline("", body)
  {
  }

  lemma {:induction false} InlineReads(s: IrSelection, rest: Stream)
    requires s.IrInline? && SelectionOk(s) && Follows(rest)
    ensures IrParser.Inline(s.on, WriteDirectives(s.directives, WriteSet(s.sub, rest))) == Parsed(s, rest)
    decreases s, 0
  {
    DirectivesRead(s.directives, WriteSet(s.sub, rest));
    SetReads(s.sub, rest);
  }

  lemma {:induction false} FieldReads(s: IrSelection, rest: Stream)
    requires s.IrField? && SelectionOk(s) && Follows(rest)
    ensures IrParser.Field(WriteSelection(s, rest)) == Parsed(s, rest)
    decreases s, 1
  {
    var body := WriteArguments(s.arguments, WriteDirectives(s.directives, WriteSet(s.sub, rest)));
    BodyReads(s, rest);
    if s.alias == "" {
      assert !Starts(body, Colon);
      assert WriteSelection(s, rest) == Next(NameToken(s.name), body);
    } else {
      AliasedField(s.alias, s.name, body);
    }
  }

  lemma AliasedField(alias: Ident, name: Ident, body: Stream)
    ensures IrParser.Field(Next(NameToken(alias), Next(Colon, Next(NameToken(name), body))))
            == IrParser.FieldBody(alias, name, body)
  {
  }

  lemma {:induction false} BodyReads(s: IrSelection, rest: Stream)
    requires s.IrField? && SelectionOk(s) && Follows(rest)
    ensures IrParser.FieldBody(s.alias, s.name,
                               WriteArguments(s.arguments, WriteDirectives(s.directives, WriteSet(s.sub, rest))))
            == Parsed(s, rest)
    decreases s, 0
  {
    var more := WriteSet(s.sub, rest);
    ArgumentsRead(s.arguments, WriteDirectives(s.directives, more));
    DirectivesRead(s.directives, more);
    if s.sub.SetOf? {
      SetReads(s.sub, rest);
    }
  }
}
