/**
 Tokens, and the parse tree of the intermediate parsing route.
 */
module ParseTree {

  /** A name token is never empty. */
  type Ident = s: string | s != "" witness "a"

  datatype Token =
    | NameToken(name: Ident)
    | IntToken(text: string)
    | FloatToken(text: string)
    | StringToken(raw: string, block: bool)
    | Dollar | Colon | Bang | At | Spread | Equals | Amp | Pipe
    | LParen | RParen | LBracket | RBracket | LBrace | RBrace

  /** The tokens of a source from some point on; the first is the current token. */
  datatype Stream = End | Next(token: Token, rest: Stream)

  function Length(ts: Stream): nat {
    if ts.End? then 0 else 1 + Length(ts.rest)
  }

  /** The outcome of parsing: a result and the tokens left, or failure. */
  datatype Parsed<+T> = Failed | Parsed(value: T, rest: Stream)

  predicate Starts(ts: Stream, t: Token) {
    ts.Next? && ts.token == t
  }

  predicate StartsWithName(ts: Stream) {
    ts.Next? && ts.token.NameToken?
  }

  // ----- The tree -----

  datatype IrValue =
    | IrVariable(name: Ident)
    | IrInt(text: string)
    | IrFloat(text: string)
    | IrString(raw: string, block: bool)
    | IrBool(b: bool)
    | IrNull
    | IrEnum(name: Ident)
    | IrList(items: seq<IrValue>)
    | IrObject(fields: seq<IrEntry>)

  /** A named value: an argument or an object field. */
  datatype IrEntry = IrEntry(name: Ident, value: IrValue)

  datatype IrDirective = IrDirective(name: Ident, arguments: seq<IrEntry>)

  /** A selection. Spans that are not there are empty: no alias, no type condition. */
  datatype IrSelection =
    | IrField(alias: string, name: Ident, arguments: seq<IrEntry>, directives: seq<IrDirective>, sub: IrSelectionSet)
    | IrSpread(name: Ident, directives: seq<IrDirective>)
    | IrInline(on: string, directives: seq<IrDirective>, sub: IrSelectionSet)

  datatype IrSelectionSet = NoSet | SetOf(selections: seq<IrSelection>)

  // ----- Nesting -----

  function Max(a: nat, b: nat): nat {
    if a < b then b else a
  }

  /** How deep lists and objects nest in a value. */
  function ValueNesting(v: IrValue): nat {
    match v
    case IrList(items) => 1 + ItemsNesting(items)
    case IrObject(fields) => 1 + EntriesNesting(fields)
    case _ => 0
  }

  function ItemsNesting(items: seq<IrValue>): nat {
    if items == [] then 0 else Max(ValueNesting(items[0]), ItemsNesting(items[1..]))
  }

  function EntriesNesting(entries: seq<IrEntry>): nat {
    if entries == [] then 0 else Max(ValueNesting(entries[0].value), EntriesNesting(entries[1..]))
  }

  function DirectivesNesting(directives: seq<IrDirective>): nat {
    if directives == [] then 0 else Max(EntriesNesting(directives[0].arguments), DirectivesNesting(directives[1..]))
  }

  /** How deep selection sets, lists and objects nest in a selection. */
  function SelectionNesting(s: IrSelection): nat {
    match s
    case IrField(_, _, arguments, directives, sub) =>
      Max(EntriesNesting(arguments), Max(DirectivesNesting(directives), SetNesting(sub)))
    case IrSpread(_, directives) => DirectivesNesting(directives)
    case IrInline(_, directives, sub) => Max(DirectivesNesting(directives), SetNesting(sub))
  }

  function SetNesting(sub: IrSelectionSet): nat {
    match sub
    case NoSet => 0
    case SetOf(selections) => 1 + SelectionsNesting(selections)
  }

  function SelectionsNesting(selections: seq<IrSelection>): nat {
    if selections == [] then 0 else Max(SelectionNesting(selections[0]), SelectionsNesting(selections[1..]))
  }

  // ----- Writing the tree out before other tokens -----

  function WriteValue(v: IrValue, rest: Stream): Stream {
    match v
    case IrVariable(name) => Next(Dollar, Next(NameToken(name), rest))
    case IrInt(text) => Next(IntToken(text), rest)
    case IrFloat(text) => Next(FloatToken(text), rest)
    case IrString(raw, block) => Next(StringToken(raw, block), rest)
    case IrBool(b) => Next(NameToken(if b then "true" else "false"), rest)
    case IrNull => Next(NameToken("null"), rest)
    case IrEnum(name) => Next(NameToken(name), rest)
    case IrList(items) => Next(LBracket, WriteItems(items, Next(RBracket, rest)))
    case IrObject(fields) => Next(LBrace, WriteEntries(fields, Next(RBrace, rest)))
  }

  function WriteItems(items: seq<IrValue>, rest: Stream): Stream {
    if items == [] then rest else WriteValue(items[0], WriteItems(items[1..], rest))
  }

  function WriteEntries(entries: seq<IrEntry>, rest: Stream): Stream {
    if entries == [] then rest
    else Next(NameToken(entries[0].name), Next(Colon, WriteValue(entries[0].value, WriteEntries(entries[1..], rest))))
  }

  function WriteArguments(arguments: seq<IrEntry>, rest: Stream): Stream {
    if arguments == [] then rest else Next(LParen, WriteEntries(arguments, Next(RParen, rest)))
  }

  function WriteDirectives(directives: seq<IrDirective>, rest: Stream): Stream {
    if directives == [] then rest
    else Next(At, Next(NameToken(directives[0].name),
                       WriteArguments(directives[0].arguments, WriteDirectives(directives[1..], rest))))
  }

  function WriteSelection(s: IrSelection, rest: Stream): Stream {
    match s
    case IrField(alias, name, arguments, directives, sub) =>
      var body := Next(NameToken(name), WriteArguments(arguments, WriteDirectives(directives, WriteSet(sub, rest))));
      if alias != "" then Next(NameToken(alias), Next(Colon, body)) else body
    case IrSpread(name, directives) => Next(Spread, Next(NameToken(name), WriteDirectives(directives, rest)))
    case IrInline(on, directives, sub) =>
      var body := WriteDirectives(directives, WriteSet(sub, rest));
      Next(Spread, if on != "" then Next(NameToken("on"), Next(NameToken(on), body)) else body)
  }

  function WriteSet(sub: IrSelectionSet, rest: Stream): Stream {
    match sub
    case NoSet => rest
    case SetOf(selections) => Next(LBrace, WriteSelections(selections, Next(RBrace, rest)))
  }

  function WriteSelections(selections: seq<IrSelection>, rest: Stream): Stream {
    if selections == [] then rest else WriteSelection(selections[0], WriteSelections(selections[1..], rest))
  }

  // ----- Trees the grammar can write -----

  /** An enum value is not a keyword, and a constant holds no variable. */
  predicate ValueOk(v: IrValue, isConst: bool) {
    match v
    case IrVariable(_) => !isConst
    case IrEnum(name) => name != "true" && name != "false" && name != "null"
    case IrList(items) => forall i :: 0 <= i < |items| ==> ValueOk(items[i], isConst)
    case IrObject(fields) => EntriesOk(fields, isConst)
    case _ => true
  }

  predicate EntriesOk(entries: seq<IrEntry>, isConst: bool) {
    forall i :: 0 <= i < |entries| ==> ValueOk(entries[i].value, isConst)
  }

  predicate DirectivesOk(directives: seq<IrDirective>) {
    forall i :: 0 <= i < |directives| ==> EntriesOk(directives[i].arguments, false)
  }

  /** A spread fragment is not called `on`; inline fragments have a selection set;
      selection sets are not empty. */
  predicate SelectionOk(s: IrSelection) {
    match s
    case IrField(_, _, arguments, directives, sub) =>
      EntriesOk(arguments, false) && DirectivesOk(directives) && SetOk(sub)
    case IrSpread(name, directives) => name != "on" && DirectivesOk(directives)
    case IrInline(_, directives, sub) => DirectivesOk(directives) && sub.SetOf? && SetOk(sub)
  }

  predicate SetOk(sub: IrSelectionSet) {
    sub.SetOf? ==> sub.selections != [] && SelectionsOk(sub.selections)
  }

  predicate SelectionsOk(selections: seq<IrSelection>) {
    forall i :: 0 <= i < |selections| ==> SelectionOk(selections[i])
  }
}
