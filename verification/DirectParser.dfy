/**
 The direct parsing route as a function of the tokens: it yields the canonical
 syntax tree and refuses input nested more than a fixed number of levels.
 */
module DirectParser {
  import opened Values
  import opened Document
  import opened ParseTree
  import opened CanonicalForm

  /** The most levels of lists, objects and selection sets within one another. */
  const MAX_DEPTH: nat := 512

  function Literal(ts: Stream, isConst: bool, depth: nat, k: Reading): (r: Parsed<Value>)
    ensures r.Parsed? ==> Length(r.rest) < Length(ts)
    decreases Length(ts), 1
  {
    if ts.End? then Failed
    else match ts.token
      case Dollar =>
        if isConst || !StartsWithName(ts.rest) then Failed else Parsed(Variable(ts.rest.token.name), ts.rest.rest)
      case IntToken(text) => Parsed(Int(k.integer(text)), ts.rest)
      case FloatToken(text) => Parsed(Float(k.number(text)), ts.rest)
      case StringToken(raw, block) => Parsed(Str(k.text(raw, block)), ts.rest)
      case NameToken(name) => Parsed(NameLiteral(name), ts.rest)
      case LBracket =>
        if depth + 1 > MAX_DEPTH then Failed
        else
          var r := Items(ts.rest, isConst, depth + 1, k);
          if r.Failed? || !Starts(r.rest, RBracket) then Failed else Parsed(List(r.value), r.rest.rest)
      case LBrace =>
        if depth + 1 > MAX_DEPTH then Failed
        else
          var r := Entries(ts.rest, isConst, RBrace, depth + 1, k);
          if r.Failed? || !Starts(r.rest, RBrace) then Failed else Parsed(Object(r.value), r.rest.rest)
      case _ => Failed
  }

  function NameLiteral(name: string): Value {
    if name == "true" then Bool(true)
    else if name == "false" then Bool(false)
    else if name == "null" then Undef
    else Enum(name)
  }

  function Items(ts: Stream, isConst: bool, depth: nat, k: Reading): (r: Parsed<seq<Value>>)
    ensures r.Parsed? ==> Length(r.rest) <= Length(ts) && Starts(r.rest, RBracket)
    decreases Length(ts), 2
  {
    if Starts(ts, RBracket) then Parsed([], ts)
    else
      var first := Literal(ts, isConst, depth, k);
      if first.Failed? then Failed
      else
        var others := Items(first.rest, isConst, depth, k);
        if others.Failed? then Failed else Parsed([first.value] + others.value, others.rest)
  }

  /** Named values up to a closing token; later ones replace earlier ones of the same name. */
  function Entries(ts: Stream, isConst: bool, close: Token, depth: nat, k: Reading): (r: Parsed<map<string, Value>>)
    ensures r.Parsed? ==> Length(r.rest) <= Length(ts) && Starts(r.rest, close)
    decreases Length(ts), 2
  {
    if Starts(ts, close) then Parsed(map[], ts)
    else if !StartsWithName(ts) || !Starts(ts.rest, Colon) then Failed
    else
      assert Length(ts.rest) == 1 + Length(ts.rest.rest);
      var first := Literal(ts.rest.rest, isConst, depth, k);
      if first.Failed? then Failed
      else
        var others := Entries(first.rest, isConst, close, depth, k);
        if others.Failed? then Failed else Parsed(map[ts.token.name := first.value] + others.value, others.rest)
  }

  function Arguments(ts: Stream, isConst: bool, depth: nat, k: Reading): (r: Parsed<map<string, Value>>)
    ensures r.Parsed? ==> Length(r.rest) < Length(ts)
  {
    if !Starts(ts, LParen) || Starts(ts.rest, RParen) then Failed
    else
      var r := Entries(ts.rest, isConst, RParen, depth, k);
      if r.Failed? then Failed else Parsed(r.value, r.rest.rest)
  }

  function OptionalArguments(ts: Stream, depth: nat, k: Reading): (r: Parsed<Option<map<string, Value>>>)
    ensures r.Parsed? ==> Length(r.rest) <= Length(ts)
  {
    if !Starts(ts, LParen) then Parsed(None, ts)
    else
      var r := Arguments(ts, false, depth, k);
      if r.Failed? then Failed else Parsed(Some(r.value), r.rest)
  }

  function Directives(ts: Stream, depth: nat, k: Reading): (r: Parsed<seq<Directive>>)
    ensures r.Parsed? ==> Length(r.rest) <= Length(ts) && !Starts(r.rest, At)
    decreases Length(ts)
  {
    if !Starts(ts, At) then Parsed([], ts)
    else if !StartsWithName(ts.rest) then Failed
    else
      assert Length(ts.rest) == 1 + Length(ts.rest.rest);
      var arguments := OptionalArguments(ts.rest.rest, depth, k);
      if arguments.Failed? then Failed
      else
        var others := Directives(arguments.rest, depth, k);
        if others.Failed? then Failed
        else Parsed([Directive(ts.rest.token.name, arguments.value)] + others.value, others.rest)
  }

  function SelectionSet(ts: Stream, depth: nat, k: Reading): (r: Parsed<seq<Selection>>)
    ensures r.Parsed? ==> Length(r.rest) < Length(ts)
    decreases Length(ts), 0
  {
    if depth + 1 > MAX_DEPTH || !Starts(ts, LBrace) || Starts(ts.rest, RBrace) then Failed
    else
      var r := Selections(ts.rest, depth + 1, k);
      if r.Failed? then Failed else Parsed(r.value, r.rest.rest)
  }

  function Selections(ts: Stream, depth: nat, k: Reading): (r: Parsed<seq<Selection>>)
    ensures r.Parsed? ==> Length(r.rest) <= Length(ts) && Starts(r.rest, RBrace)
    decreases Length(ts), 3
  {
    if Starts(ts, RBrace) then Parsed([], ts)
    else
      var first := Select(ts, depth, k);
      if first.Failed? then Failed
      else
        var others := Selections(first.rest, depth, k);
        if others.Failed? then Failed else Parsed([first.value] + others.value, others.rest)
  }

  function Select(ts: Stream, depth: nat, k: Reading): (r: Parsed<Selection>)
    ensures r.Parsed? ==> Length(r.rest) < Length(ts)
    decreases Length(ts), 2
  {
    if !Starts(ts, Spread) then FieldOf(ts, depth, k)
    else if Starts(ts.rest, NameToken("on")) then
      if !StartsWithName(ts.rest.rest) then Failed
      else
        assert Length(ts.rest) == 2 + Length(ts.rest.rest.rest);
        Inline(Some(ts.rest.rest.token.name), ts.rest.rest.rest, depth, k)
    else if Starts(ts.rest, LBrace) || Starts(ts.rest, At) then Inline(None, ts.rest, depth, k)
    else if !StartsWithName(ts.rest) then Failed
    else
      var directives := Directives(ts.rest.rest, depth, k);
      if directives.Failed? then Failed
      else Parsed(FragmentSpread(ts.rest.token.name, directives.value), directives.rest)
  }

  function Inline(on: Option<string>, ts: Stream, depth: nat, k: Reading): (r: Parsed<Selection>)
    ensures r.Parsed? ==> Length(r.rest) < Length(ts)
    decreases Length(ts), 1
  {
    var directives := Directives(ts, depth, k);
    if directives.Failed? then Failed
    else
      var sub := SelectionSet(directives.rest, depth, k);
      if sub.Failed? then Failed else Parsed(InlineFragment(on, directives.value, sub.value), sub.rest)
  }

  function FieldOf(ts: Stream, depth: nat, k: Reading): (r: Parsed<Selection>)
    ensures r.Parsed? ==> Length(r.rest) < Length(ts)
    decreases Length(ts), 1
  {
    if !StartsWithName(ts) then Failed
    else if Starts(ts.rest, Colon) then
      if !StartsWithName(ts.rest.rest) then Failed
      else
        assert Length(ts.rest) == 2 + Length(ts.rest.rest.rest);
        FieldBody(Some(ts.token.name), ts.rest.rest.token.name, ts.rest.rest.rest, depth, k)
    else FieldBody(None, ts.token.name, ts.rest, depth, k)
  }

  function FieldBody(alias: Option<string>, name: string, ts: Stream, depth: nat, k: Reading): (r: Parsed<Selection>)
    ensures r.Parsed? ==> Length(r.rest) <= Length(ts)
    decreases Length(ts), 1
  {
    var arguments := OptionalArguments(ts, depth, k);
    if arguments.Failed? then Failed
    else
      var directives := Directives(arguments.rest, depth, k);
      if directives.Failed? then Failed
      else if !Starts(directives.rest, LBrace) then
        Parsed(Field(alias, name, arguments.value, directives.value, Absent), directives.rest)
      else
        var sub := SelectionSet(directives.rest, depth, k);
        if sub.Failed? then Failed
        else Parsed(Field(alias, name, arguments.value, directives.value, Present(sub.value)), sub.rest)
  }
}
