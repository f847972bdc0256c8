/**
 From the intermediate parse tree to the canonical syntax tree, in two steps:
 nodes are built from the tree, and the nodes are converted.
 */
module CanonicalForm {
  import opened Values
  import opened Document
  import opened ParseTree

  /** How token text is read: the integer and the number it denotes, and the text
      of a string literal. */
  datatype Reading = Reading(integer: string -> int, number: string -> string, text: (string, bool) -> string)

  // ----- Nodes -----

  datatype ValueNode =
    | VariableNode(name: string)
    | IntNode(text: string)
    | FloatNode(text: string)
    | StringNode(text: string)
    | BooleanNode(b: bool)
    | NullNode
    | EnumNode(name: string)
    | ListNode(values: seq<ValueNode>)
    | ObjectNode(fields: seq<EntryNode>)

  datatype EntryNode = EntryNode(name: string, value: ValueNode)

  datatype DirectiveNode = DirectiveNode(name: string, arguments: seq<EntryNode>)

  datatype SelectionNode =
    | FieldNode(alias: Option<string>, name: string, arguments: seq<EntryNode>, directives: seq<DirectiveNode>,
                sub: SetNode)
    | SpreadNode(name: string, directives: seq<DirectiveNode>)
    | InlineNode(on: Option<string>, directives: seq<DirectiveNode>, sub: SetNode)

  datatype SetNode = NoSetNode | SetNode(selections: seq<SelectionNode>)

  // ----- Building nodes -----

  function BuildValue(v: IrValue, k: Reading): ValueNode {
    match v
    case IrVariable(name) => VariableNode(name)
    case IrInt(text) => IntNode(text)
    case IrFloat(text) => FloatNode(text)
    case IrString(raw, block) => StringNode(k.text(raw, block))
    case IrBool(b) => BooleanNode(b)
    case IrNull => NullNode
    case IrEnum(name) => EnumNode(name)
    case IrList(items) => ListNode(BuildItems(items, k))
    case IrObject(fields) => ObjectNode(BuildEntries(fields, k))
  }

  function BuildItems(items: seq<IrValue>, k: Reading): seq<ValueNode> {
    if items == [] then [] else [BuildValue(items[0], k)] + BuildItems(items[1..], k)
  }

  function BuildEntries(entries: seq<IrEntry>, k: Reading): seq<EntryNode> {
    if entries == [] then []
    else [EntryNode(entries[0].name, BuildValue(entries[0].value, k))] + BuildEntries(entries[1..], k)
  }

  function BuildDirectives(directives: seq<IrDirective>, k: Reading): seq<DirectiveNode> {
    if directives == [] then []
    else
      [DirectiveNode(directives[0].name, BuildEntries(directives[0].arguments, k))]
      + BuildDirectives(directives[1..], k)
  }

  /** An empty span builds no child. */
  function BuildSpan(span: string): Option<string> {
    if span == "" then None else Some(span)
  }

  function BuildSelection(s: IrSelection, k: Reading): SelectionNode {
    match s
    case IrField(alias, name, arguments, directives, sub) =>
      FieldNode(BuildSpan(alias), name, BuildEntries(arguments, k), BuildDirectives(directives, k), BuildSet(sub, k))
    case IrSpread(name, directives) => SpreadNode(name, BuildDirectives(directives, k))
    case IrInline(on, directives, sub) => InlineNode(BuildSpan(on), BuildDirectives(directives, k), BuildSet(sub, k))
  }

  function BuildSet(sub: IrSelectionSet, k: Reading): SetNode {
    match sub
    case NoSet => NoSetNode
    case SetOf(selections) => SetNode(BuildSelections(selections, k))
  }

  function BuildSelections(selections: seq<IrSelection>, k: Reading): seq<SelectionNode> {
    if selections == [] then [] else [BuildSelection(selections[0], k)] + BuildSelections(selections[1..], k)
  }

  // ----- Converting nodes -----

  function ConvertValue(n: ValueNode, k: Reading): Value {
    match n
    case VariableNode(name) => Variable(name)
    case IntNode(text) => Int(k.integer(text))
    case FloatNode(text) => Float(k.number(text))
    case StringNode(text) => Str(text)
    case BooleanNode(b) => Bool(b)
    case NullNode => Undef
    case EnumNode(name) => Enum(name)
    case ListNode(values) => List(ConvertItems(values, k))
    case ObjectNode(fields) => Object(ConvertEntries(fields, k))
  }

  function ConvertItems(values: seq<ValueNode>, k: Reading): seq<Value> {
    if values == [] then [] else [ConvertValue(values[0], k)] + ConvertItems(values[1..], k)
  }

  /** Entries stored in order in a hash: later ones replace earlier ones of the same name. */
  function ConvertEntries(entries: seq<EntryNode>, k: Reading): map<string, Value> {
    if entries == [] then map[]
    else map[entries[0].name := ConvertValue(entries[0].value, k)] + ConvertEntries(entries[1..], k)
  }

  /** No arguments give no hash at all. */
  function ConvertArguments(arguments: seq<EntryNode>, k: Reading): Option<map<string, Value>> {
    if arguments == [] then None else Some(ConvertEntries(arguments, k))
  }

  function ConvertDirectives(directives: seq<DirectiveNode>, k: Reading): seq<Directive> {
    if directives == [] then []
    else
      [Directive(directives[0].name, ConvertArguments(directives[0].arguments, k))]
      + ConvertDirectives(directives[1..], k)
  }

  function ConvertSelection(n: SelectionNode, k: Reading): Selection {
    match n
    case FieldNode(alias, name, arguments, directives, sub) =>
      Field(alias, name, ConvertArguments(arguments, k), ConvertDirectives(directives, k), ConvertSet(sub, k))
    case SpreadNode(name, directives) => FragmentSpread(name, ConvertDirectives(directives, k))
    case InlineNode(on, directives, sub) =>
      InlineFragment(on, ConvertDirectives(directives, k),
                     if sub.NoSetNode? then [] else ConvertSelections(sub.selections, k))
  }

  /** A field's selection set; an empty one is dropped. */
  function ConvertSet(sub: SetNode, k: Reading): SubSelections {
    match sub
    case NoSetNode => Absent
    case SetNode(selections) => if selections == [] then Absent else Present(ConvertSelections(selections, k))
  }

  function ConvertSelections(selections: seq<SelectionNode>, k: Reading): seq<Selection> {
    if selections == [] then [] else [ConvertSelection(selections[0], k)] + ConvertSelections(selections[1..], k)
  }

  // ----- Both steps at once -----

  function CanonicalValue(v: IrValue, k: Reading): Value {
    ConvertValue(BuildValue(v, k), k)
  }

  function CanonicalItems(items: seq<IrValue>, k: Reading): seq<Value> {
    ConvertItems(BuildItems(items, k), k)
  }

  function CanonicalEntries(entries: seq<IrEntry>, k: Reading): map<string, Value> {
    ConvertEntries(BuildEntries(entries, k), k)
  }

  function CanonicalArguments(arguments: seq<IrEntry>, k: Reading): Option<map<string, Value>> {
    ConvertArguments(BuildEntries(arguments, k), k)
  }

  function CanonicalDirectives(directives: seq<IrDirective>, k: Reading): seq<Directive> {
    ConvertDirectives(BuildDirectives(directives, k), k)
  }

  function CanonicalSelection(s: IrSelection, k: Reading): Selection {
    ConvertSelection(BuildSelection(s, k), k)
  }

  function CanonicalSelections(selections: seq<IrSelection>, k: Reading): seq<Selection> {
    ConvertSelections(BuildSelections(selections, k), k)
  }

  /** The canonical value of a name: of several entries the last one counts. */
  lemma {:induction false} LastEntryWins(entries: seq<IrEntry>, k: Reading, name: string)
    ensures name in CanonicalEntries(entries, k) <==> exists i :: 0 <= i < |entries| && entries[i].name == name
    ensures forall i :: 0 <= i < |entries| && entries[i].name == name
              && (forall j :: i < j < |entries| ==> entries[j].name != name)
              ==> name in CanonicalEntries(entries, k)
                  && CanonicalEntries(entries, k)[name] == CanonicalValue(entries[i].value, k)
  {
    if entries != [] {
      EntriesCons(entries, k);
      LastEntryWins(entries[1..], k, name);
      forall i | 0 <= i < |entries| && entries[i].name == name
                 && (forall j :: i < j < |entries| ==> entries[j].name != name)
        ensures name in CanonicalEntries(entries, k)
                && CanonicalEntries(entries, k)[name] == CanonicalValue(entries[i].value, k)
      {
        if i > 0 {
          assert entries[1..][i - 1] == entries[i];
        }
      }
      if name in CanonicalEntries(entries[1..], k) {
        var i :| 0 <= i < |entries[1..]| && entries[1..][i].name == name;
        assert entries[i + 1].name == name;
      }
      if i :| 0 <= i < |entries| && entries[i].name == name {
        assert i > 0 ==> entries[1..][i - 1].name == name;
      }
    }
  }

  // ----- One element at a time -----

  lemma ItemsCons(items: seq<IrValue>, k: Reading)
    requires items != []
    ensures CanonicalItems(items, k) == [CanonicalValue(items[0], k)] + CanonicalItems(items[1..], k)
  {
    assert BuildItems(items, k)[1..] == BuildItems(items[1..], k);
  }

  lemma EntriesCons(entries: seq<IrEntry>, k: Reading)
    requires entries != []
    ensures CanonicalEntries(entries, k)
            == map[entries[0].name := CanonicalValue(entries[0].value, k)] + CanonicalEntries(entries[1..], k)
  {
    assert BuildEntries(entries, k)[1..] == BuildEntries(entries[1..], k);
  }

  lemma DirectivesCons(directives: seq<IrDirective>, k: Reading)
    requires directives != []
    ensures CanonicalDirectives(directives, k)
            == [Directive(directives[0].name, CanonicalArguments(directives[0].arguments, k))]
            + CanonicalDirectives(directives[1..], k)
  {
    assert BuildDirectives(directives, k)[1..] == BuildDirectives(directives[1..], k);
  }

  lemma SelectionsCons(selections: seq<IrSelection>, k: Reading)
    requires selections != []
    ensures CanonicalSelections(selections, k)
            == [CanonicalSelection(selections[0], k)] + CanonicalSelections(selections[1..], k)
  {
    assert BuildSelections(selections, k)[1..] == BuildSelections(selections[1..], k);
  }
}
