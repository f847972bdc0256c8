/**
 The intermediate parsing route as a function of the tokens, and the grammar it
 recognizes: what it accepts is exactly what a tree writes out as.
 */
module IrParser {
  import opened ParseTree

  // ----- The parser -----

  function Value(ts: Stream, isConst: bool): (r: Parsed<IrValue>)
    ensures r.Parsed? ==> Length(r.rest) < Length(ts)
    decreases Length(ts), 1
  {
    if ts.End? then Failed
    else match ts.token
      case Dollar =>
        if isConst || !StartsWithName(ts.rest) then Failed else Parsed(IrVariable(ts.rest.token.name), ts.rest.rest)
      case IntToken(text) => Parsed(IrInt(text), ts.rest)
      case FloatToken(text) => Parsed(IrFloat(text), ts.rest)
      case StringToken(raw, block) => Parsed(IrString(raw, block), ts.rest)
      case NameToken(name) => Parsed(NameValue(name), ts.rest)
      case LBracket =>
        var r := Items(ts.rest, isConst);
        if r.Failed? || !Starts(r.rest, RBracket) then Failed else Parsed(IrList(r.value), r.rest.rest)
      case LBrace =>
        var r := Entries(ts.rest, isConst, RBrace);
        if r.Failed? || !Starts(r.rest, RBrace) then Failed else Parsed(IrObject(r.value), r.rest.rest)
      case _ => Failed
  }

  function NameValue(name: Ident): IrValue {
    if name == "true" then IrBool(true)
    else if name == "false" then IrBool(false)
    else if name == "null" then IrNull
    else IrEnum(name)
  }

  /** Values up to a closing bracket. */
  function Items(ts: Stream, isConst: bool): (r: Parsed<seq<IrValue>>)
    ensures r.Parsed? ==> Length(r.rest) <= Length(ts) && Starts(r.rest, RBracket)
    decreases Length(ts), 2
  {
    if Starts(ts, RBracket) then Parsed([], ts)
    else
      var first := Value(ts, isConst);
      if first.Failed? then Failed
      else
        var others := Items(first.rest, isConst);
        if others.Failed? then Failed else Parsed([first.value] + others.value, others.rest)
  }

  /** Named values up to a closing token. */
  function Entries(ts: Stream, isConst: bool, close: Token): (r: Parsed<seq<IrEntry>>)
    ensures r.Parsed? ==> Length(r.rest) <= Length(ts) && Starts(r.rest, close)
    decreases Length(ts), 2
  {
    if Starts(ts, close) then Parsed([], ts)
    else if !StartsWithName(ts) || !Starts(ts.rest, Colon) then Failed
    else
      assert Length(ts.rest) == 1 + Length(ts.rest.rest);
      var first := Value(ts.rest.rest, isConst);
      if first.Failed? then Failed
      else
        var others := Entries(first.rest, isConst, close);
        if others.Failed? then Failed else Parsed([IrEntry(ts.token.name, first.value)] + others.value, others.rest)
  }

  /** A parenthesized, non-empty argument list. */
  function Arguments(ts: Stream, isConst: bool): (r: Parsed<seq<IrEntry>>)
    ensures r.Parsed? ==> Length(r.rest) < Length(ts) && r.value != []
  {
    if !Starts(ts, LParen) || Starts(ts.rest, RParen) then Failed
    else
      var r := Entries(ts.rest, isConst, RParen);
      if r.Failed? then Failed else Parsed(r.value, r.rest.rest)
  }

  /** Arguments if there are any. */
  function OptionalArguments(ts: Stream): (r: Parsed<seq<IrEntry>>)
    ensures r.Parsed? ==> Length(r.rest) <= Length(ts)
  {
    if Starts(ts, LParen) then Arguments(ts, false) else Parsed([], ts)
  }

  function Directives(ts: Stream): (r: Parsed<seq<IrDirective>>)
    ensures r.Parsed? ==> Length(r.rest) <= Length(ts) && !Starts(r.rest, At)
    decreases Length(ts)
  {
    if !Starts(ts, At) then Parsed([], ts)
    else if !StartsWithName(ts.rest) then Failed
    else
      assert Length(ts.rest) == 1 + Length(ts.rest.rest);
      var arguments := OptionalArguments(ts.rest.rest);
      if arguments.Failed? then Failed
      else
        var others := Directives(arguments.rest);
        if others.Failed? then Failed
        else Parsed([IrDirective(ts.rest.token.name, arguments.value)] + others.value, others.rest)
  }

  function SelectionSet(ts: Stream): (r: Parsed<IrSelectionSet>)
    ensures r.Parsed? ==> Length(r.rest) < Length(ts) && r.value.SetOf? && r.value.selections != []
    decreases Length(ts), 0
  {
    if !Starts(ts, LBrace) || Starts(ts.rest, RBrace) then Failed
    else
      var r := Selections(ts.rest);
      if r.Failed? then Failed else Parsed(SetOf(r.value), r.rest.rest)
  }

  function Selections(ts: Stream): (r: Parsed<seq<IrSelection>>)
    ensures r.Parsed? ==> Length(r.rest) <= Length(ts) && Starts(r.rest, RBrace)
    ensures r.Parsed? && !Starts(ts, RBrace) ==> r.value != []
    decreases Length(ts), 3
  {
    if Starts(ts, RBrace) then Parsed([], ts)
    else
      var first := Selection(ts);
      if first.Failed? then Failed
      else
        var others := Selections(first.rest);
        if others.Failed? then Failed else Parsed([first.value] + others.value, others.rest)
  }

  function Selection(ts: Stream): (r: Parsed<IrSelection>)
    ensures r.Parsed? ==> Length(r.rest) < Length(ts)
    decreases Length(ts), 2
  {
    if !Starts(ts, Spread) then Field(ts)
    else if Starts(ts.rest, NameToken("on")) then
      if !StartsWithName(ts.rest.rest) then Failed
      else
        assert Length(ts.rest) == 2 + Length(ts.rest.rest.rest);
        Inline(ts.rest.rest.token.name, ts.rest.rest.rest)
    else if Starts(ts.rest, LBrace) || Starts(ts.rest, At) then Inline("", ts.rest)
    else if !StartsWithName(ts.rest) then Failed
    else
      var directives := Directives(ts.rest.rest);
      if directives.Failed? then Failed else Parsed(IrSpread(ts.rest.token.name, directives.value), directives.rest)
  }

  /** The rest of an inline fragment, after its type condition. */
  function Inline(on: string, ts: Stream): (r: Parsed<IrSelection>)
    ensures r.Parsed? ==> Length(r.rest) < Length(ts)
    decreases Length(ts), 1
  {
    var directives := Directives(ts);
    if directives.Failed? then Failed
    else
      var sub := SelectionSet(directives.rest);
      if sub.Failed? then Failed else Parsed(IrInline(on, directives.value, sub.value), sub.rest)
  }

  function Field(ts: Stream): (r: Parsed<IrSelection>)
    ensures r.Parsed? ==> Length(r.rest) < Length(ts)
    decreases Length(ts), 1
  {
    if !StartsWithName(ts) then Failed
    else if Starts(ts.rest, Colon) then
      if !StartsWithName(ts.rest.rest) then Failed
      else
        assert Length(ts.rest) == 2 + Length(ts.rest.rest.rest);
        FieldBody(ts.token.name, ts.rest.rest.token.name, ts.rest.rest.rest)
    else FieldBody("", ts.token.name, ts.rest)
  }

  /** What follows a field's name: arguments, directives and a selection set, each optional. */
  function FieldBody(alias: string, name: Ident, ts: Stream): (r: Parsed<IrSelection>)
    ensures r.Parsed? ==> Length(r.rest) <= Length(ts)
    decreases Length(ts), 1
  {
    var arguments := OptionalArguments(ts);
    if arguments.Failed? then Failed
    else
      var directives := Directives(arguments.rest);
      if directives.Failed? then Failed
      else if !Starts(directives.rest, LBrace) then
        Parsed(IrField(alias, name, arguments.value, directives.value, NoSet), directives.rest)
      else
        var sub := SelectionSet(directives.rest);
        if sub.Failed? then Failed
        else Parsed(IrField(alias, name, arguments.value, directives.value, sub.value), sub.rest)
  }
}
