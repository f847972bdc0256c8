/**
 The raw tree of a syntax tree, and what the usage walk sees of it: exactly the
 spreads and variables of the document, except below reserved names.
 */
module UsageOfDocuments {
  import opened Values
  import opened Document
  import opened Usage

  // ----- The raw tree -----

  function ValueNode(v: Value): Node {
    match v
    case Undef => Undefined
    case Int(n) => Number(DecimalText(n))
    case Float(text) => Number(text)
    case Str(text) => Text(text)
    case Bool(_) => OtherRef
    case Enum(_) => OtherRef
    case Variable(name) => VariableRef(name)
    case List(items) => Array(seq(|items|, i requires 0 <= i < |items| => ValueNode(items[i])))
    case Object(fields) => Hash(map k | k in fields :: ValueNode(fields[k]))
  }

  /** A hash entry that is there only when it has a value. */
  function Put(entries: map<string, Node>, key: string, n: Option<Node>): map<string, Node> {
    if n.Some? then entries[key := n.value] else entries
  }

  function ArgumentsNode(arguments: Option<map<string, Value>>): Option<Node> {
    if arguments.Some? then Some(ValueNode(Object(arguments.value))) else None
  }

  function TextNode(text: Option<string>): Option<Node> {
    if text.Some? then Some(Text(text.value)) else None
  }

  function DirectiveNode(d: Directive): Node {
    Hash(Put(map["name" := Text(d.name)], "arguments", ArgumentsNode(d.arguments)))
  }

  function DirectivesNode(ds: seq<Directive>): Node {
    Array(seq(|ds|, i requires 0 <= i < |ds| => DirectiveNode(ds[i])))
  }

  function SelectionsNode(selections: seq<Selection>): Node
    decreases selections
  {
    Array(seq(|selections|, i requires 0 <= i < |selections| => SelectionNode(selections[i])))
  }

  function SubNode(sub: SubSelections): Option<Node>
    decreases sub, 0
  {
    match sub case Absent => None case Present(nested) => Some(SelectionsNode(nested))
  }

  /** The scalar entries of a selection's hash. */
  function Scalars(s: Selection): map<string, Node> {
    match s
    case Field(alias, name, _, _, _) =>
      Put(map["kind" := Text("field"), "name" := Text(name)], "alias", TextNode(alias))
    case InlineFragment(on, _, _) => Put(map["kind" := Text("inline_fragment")], "on", TextNode(on))
    case FragmentSpread(name, _) => map["kind" := Text("fragment_spread"), "name" := Text(name)]
  }

  function SelectionNode(s: Selection): Node
    decreases s
  {
    var entries := Put(Scalars(s), "directives", DirectivesOf(s));
    match s
    case Field(_, _, arguments, _, sub) =>
      Hash(Put(Put(entries, "arguments", ArgumentsNode(arguments)), "selections", SubNode(sub)))
    case InlineFragment(_, _, nested) => Hash(Put(entries, "selections", Some(SelectionsNode(nested))))
    case FragmentSpread(_, _) => Hash(entries)
  }

  lemma PutEntries(entries: map<string, Node>, key: string, n: Option<Node>)
    requires key !in entries && !Skipped(key)
    ensures var m := Put(entries, key, n);
            && EntryVariables(Hash(m), m.Keys)
               == EntryVariables(Hash(entries), entries.Keys) + (if n.Some? then VariablesIn(n.value) else {})
            && EntrySpreads(Hash(m), m.Keys)
               == EntrySpreads(Hash(entries), entries.Keys) + (if n.Some? then NodeSpreads(n.value) else {})
  {
    if n.Some? {
      var m := Put(entries, key, n);
      assert m.Keys == entries.Keys + {key};
      EntriesInsert(Hash(m), entries.Keys, key);
      assert EntryVariables(Hash(m), entries.Keys) == EntryVariables(Hash(entries), entries.Keys);
      assert EntrySpreads(Hash(m), entries.Keys) == EntrySpreads(Hash(entries), entries.Keys);
    }
  }

  lemma ScalarEntries(s: Selection)
    ensures EntryVariables(Hash(Scalars(s)), Scalars(s).Keys) == {}
            && EntrySpreads(Hash(Scalars(s)), Scalars(s).Keys) == {}
    ensures "directives" !in Scalars(s) && "arguments" !in Scalars(s) && "selections" !in Scalars(s)
    ensures SpreadName(Hash(Scalars(s))) == if s.FragmentSpread? then Some(s.name) else None
  {
    forall k | k in Scalars(s) ensures Scalars(s)[k].Text? {}
  }

  function DirectivesOf(s: Selection): Option<Node> {
    if s.directives == [] then None else Some(DirectivesNode(s.directives))
  }

  lemma FieldEntries(s: Selection)
    requires s.Field?
    ensures VariablesIn(SelectionNode(s)) == NodeVariables(DirectivesOf(s)) + NodeVariables(ArgumentsNode(s.arguments))
                                             + NodeVariables(SubNode(s.sub))
    ensures NodeSpreads(SelectionNode(s)) == OptionSpreads(DirectivesOf(s)) + OptionSpreads(ArgumentsNode(s.arguments))
                                             + OptionSpreads(SubNode(s.sub))
  {
    ScalarEntries(s);
    var m := Put(Put(Put(Scalars(s), "directives", DirectivesOf(s)), "arguments", ArgumentsNode(s.arguments)),
                 "selections", SubNode(s.sub));
    ThreeEntries(Scalars(s), DirectivesOf(s), ArgumentsNode(s.arguments), SubNode(s.sub));
    assert SelectionNode(s) == Hash(m);
    assert m["kind"] == Text("field");
  }

  lemma ThreeEntries(entries: map<string, Node>, directives: Option<Node>, arguments: Option<Node>,
                     selections: Option<Node>)
    requires "directives" !in entries && "arguments" !in entries && "selections" !in entries
    requires EntryVariables(Hash(entries), entries.Keys) == {} && EntrySpreads(Hash(entries), entries.Keys) == {}
    ensures var m := Put(Put(Put(entries, "directives", directives), "arguments", arguments), "selections", selections);
            && EntryVariables(Hash(m), m.Keys)
               == NodeVariables(directives) + NodeVariables(arguments) + NodeVariables(selections)
            && EntrySpreads(Hash(m), m.Keys)
               == OptionSpreads(directives) + OptionSpreads(arguments) + OptionSpreads(selections)
  {
    PutEntries(entries, "directives", directives);
    var one := Put(entries, "directives", directives);
    PutEntries(one, "arguments", arguments);
    PutEntries(Put(one, "arguments", arguments), "selections", selections);
  }

  lemma InlineEntries(s: Selection)
    requires s.InlineFragment?
    ensures VariablesIn(SelectionNode(s)) == NodeVariables(DirectivesOf(s)) + VariablesIn(SelectionsNode(s.selections))
    ensures NodeSpreads(SelectionNode(s)) == OptionSpreads(DirectivesOf(s)) + NodeSpreads(SelectionsNode(s.selections))
  {
    ScalarEntries(s);
    PutEntries(Scalars(s), "directives", DirectivesOf(s));
    PutEntries(Put(Scalars(s), "directives", DirectivesOf(s)), "selections", Some(SelectionsNode(s.selections)));
    assert SelectionNode(s).entries["kind"] == Text("inline_fragment");
  }

  lemma SpreadEntries(s: Selection)
    requires s.FragmentSpread?
    ensures VariablesIn(SelectionNode(s)) == NodeVariables(DirectivesOf(s))
    ensures NodeSpreads(SelectionNode(s)) == {s.name} + OptionSpreads(DirectivesOf(s))
  {
    ScalarEntries(s);
    PutEntries(Scalars(s), "directives", DirectivesOf(s));
    assert SelectionNode(s).entries["kind"] == Text("fragment_spread");
    assert SelectionNode(s).entries["name"] == Text(s.name);
  }

  function NodeVariables(n: Option<Node>): set<string> {
    if n.Some? then VariablesIn(n.value) else {}
  }

  function OptionSpreads(n: Option<Node>): set<string> {
    if n.Some? then NodeSpreads(n.value) else {}
  }

  // ----- Occurrences of a variable in the syntax tree -----

  /** Whether a variable occurs in a literal; with `skipping`, occurrences below
      an input field called `variables` or `location` do not count. */
  predicate Occurs(v: Value, variable: string, skipping: bool) {
    match v
    case Variable(name) => name == variable
    case List(items) => exists i :: 0 <= i < |items| && Occurs(items[i], variable, skipping)
    case Object(fields) =>
      exists k :: k in fields && !(skipping && k in {"variables", "location"}) && Occurs(fields[k], variable, skipping)
    case _ => false
  }

  predicate OccursInArguments(arguments: Option<map<string, Value>>, variable: string, skipping: bool) {
    arguments.Some? && Occurs(Object(arguments.value), variable, skipping)
  }

  predicate OccursInDirectives(ds: seq<Directive>, variable: string, skipping: bool) {
    exists i :: 0 <= i < |ds| && OccursInArguments(ds[i].arguments, variable, skipping)
  }

  predicate OccursInList(selections: seq<Selection>, variable: string, skipping: bool)
    decreases selections
  {
    exists i :: 0 <= i < |selections| && OccursIn(selections[i], variable, skipping)
  }

  predicate OccursIn(s: Selection, variable: string, skipping: bool)
    decreases s
  {
    || OccursInDirectives(s.directives, variable, skipping)
    || match s
       case Field(_, _, arguments, _, sub) =>
         || OccursInArguments(arguments, variable, skipping)
         || (match sub case Absent => false case Present(nested) => OccursInList(nested, variable, skipping))
       case InlineFragment(_, _, nested) => OccursInList(nested, variable, skipping)
       case FragmentSpread(_, _) => false
  }

  // ----- The walk sees exactly the unskipped occurrences -----

  lemma {:induction false} ItemVariablesExact(n: Node, i: nat, v: string)
    requires n.Array? && i <= |n.items|
    ensures v in ItemVariables(n, i) <==> exists j :: 0 <= j < i && v in VariablesIn(n.items[j])
    decreases i
  {
    if i > 0 {
      ItemVariablesExact(n, i - 1, v);
    }
  }

  lemma {:induction false} ValueVariables(v: Value, variable: string)
    ensures variable in VariablesIn(ValueNode(v)) <==> Occurs(v, variable, true)
    decreases v
  {
    match v {
      case List(items) =>
        var n := ValueNode(v);
        ItemVariablesExact(n, |n.items|, variable);
        forall i | 0 <= i < |items| ensures variable in VariablesIn(n.items[i]) <==> Occurs(items[i], variable, true) {
          ValueVariables(items[i], variable);
        }
      case Object(fields) =>
        var n := ValueNode(v);
        forall k | k in fields ensures variable in VariablesIn(n.entries[k]) <==> Occurs(fields[k], variable, true) {
          ValueVariables(fields[k], variable);
        }
      case _ =>
    }
  }

  lemma DirectiveEntries(d: Directive)
    ensures VariablesIn(DirectiveNode(d)) == NodeVariables(ArgumentsNode(d.arguments))
    ensures NodeSpreads(DirectiveNode(d)) == OptionSpreads(ArgumentsNode(d.arguments))
  {
    var name := map["name" := Text(d.name)];
    PutEntries(name, "arguments", ArgumentsNode(d.arguments));
    assert EntryVariables(Hash(name), name.Keys) == {} && EntrySpreads(Hash(name), name.Keys) == {};
  }

  lemma ArgumentVariables(arguments: Option<map<string, Value>>, variable: string)
    ensures variable in NodeVariables(ArgumentsNode(arguments)) <==> OccursInArguments(arguments, variable, true)
  {
    if arguments.Some? {
      ValueVariables(Object(arguments.value), variable);
    }
  }

  lemma DirectiveVariables(ds: seq<Directive>, variable: string)
    ensures variable in VariablesIn(DirectivesNode(ds)) <==> OccursInDirectives(ds, variable, true)
  {
    var n := DirectivesNode(ds);
    ItemVariablesExact(n, |n.items|, variable);
    forall i | 0 <= i < |ds|
      ensures variable in VariablesIn(n.items[i]) <==> OccursInArguments(ds[i].arguments, variable, true)
    {
      DirectiveEntries(ds[i]);
      ArgumentVariables(ds[i].arguments, variable);
    }
  }

  lemma {:induction false} SelectionsVariables(selections: seq<Selection>, variable: string)
    ensures variable in VariablesIn(SelectionsNode(selections)) <==> OccursInList(selections, variable, true)
    decreases selections
  {
    var n := SelectionsNode(selections);
    ItemVariablesExact(n, |n.items|, variable);
    forall i | 0 <= i < |selections|
      ensures variable in VariablesIn(n.items[i]) <==> OccursIn(selections[i], variable, true)
    {
      SelectionVariables(selections[i], variable);
    }
  }

  lemma {:induction false} SelectionVariables(s: Selection, variable: string)
    ensures variable in VariablesIn(SelectionNode(s)) <==> OccursIn(s, variable, true)
    decreases s
  {
    DirectiveVariables(s.directives, variable);
    match s {
      case Field(_, _, arguments, _, sub) =>
        FieldEntries(s);
        ArgumentVariables(arguments, variable);
        if sub.Present? {
          SelectionsVariables(sub.selections, variable);
        }
      case InlineFragment(_, _, nested) =>
        InlineEntries(s);
        SelectionsVariables(nested, variable);
      case FragmentSpread(_, _) =>
        SpreadEntries(s);
    }
  }

  // ----- Plain documents: no argument or input field is called as an entry of a node -----

  predicate Plain(v: Value) {
    match v
    case List(items) => forall i :: 0 <= i < |items| ==> Plain(items[i])
    case Object(fields) => forall k :: k in fields ==> k !in {"kind", "variables", "location"} && Plain(fields[k])
    case _ => true
  }

  predicate PlainArguments(arguments: Option<map<string, Value>>) {
    arguments.Some? ==> Plain(Object(arguments.value))
  }

  predicate PlainDirectives(ds: seq<Directive>) {
    forall i :: 0 <= i < |ds| ==> PlainArguments(ds[i].arguments)
  }

  predicate PlainList(selections: seq<Selection>)
    decreases selections
  {
    forall i :: 0 <= i < |selections| ==> PlainSelection(selections[i])
  }

  predicate PlainSelection(s: Selection)
    decreases s
  {
    && PlainDirectives(s.directives)
    && match s
       case Field(_, _, arguments, _, sub) =>
         PlainArguments(arguments) && (match sub case Absent => true case Present(nested) => PlainList(nested))
       case InlineFragment(_, _, nested) => PlainList(nested)
       case FragmentSpread(_, _) => true
  }

  lemma {:induction false} PlainValueOccurs(v: Value, variable: string)
    requires Plain(v)
    ensures Occurs(v, variable, true) <==> Occurs(v, variable, false)
    decreases v
  {
    match v {
      case List(items) =>
        forall i | 0 <= i < |items| ensures Occurs(items[i], variable, true) <==> Occurs(items[i], variable, false) {
          PlainValueOccurs(items[i], variable);
        }
      case Object(fields) =>
        forall k | k in fields ensures Occurs(fields[k], variable, true) <==> Occurs(fields[k], variable, false) {
          PlainValueOccurs(fields[k], variable);
        }
      case _ =>
    }
  }

  lemma PlainArgumentsOccur(arguments: Option<map<string, Value>>, variable: string)
    requires PlainArguments(arguments)
    ensures OccursInArguments(arguments, variable, true) <==> OccursInArguments(arguments, variable, false)
  {
    if arguments.Some? {
      PlainValueOccurs(Object(arguments.value), variable);
    }
  }

  lemma PlainDirectivesOccur(ds: seq<Directive>, variable: string)
    requires PlainDirectives(ds)
    ensures OccursInDirectives(ds, variable, true) <==> OccursInDirectives(ds, variable, false)
  {
    forall i | 0 <= i < |ds|
      ensures OccursInArguments(ds[i].arguments, variable, true) <==>
                OccursInArguments(ds[i].arguments, variable, false)
    {
      PlainArgumentsOccur(ds[i].arguments, variable);
    }
  }

  lemma {:induction false} PlainListOccurs(selections: seq<Selection>, variable: string)
    requires PlainList(selections)
    ensures OccursInList(selections, variable, true) <==> OccursInList(selections, variable, false)
    decreases selections
  {
    forall i | 0 <= i < |selections|
      ensures OccursIn(selections[i], variable, true) <==> OccursIn(selections[i], variable, false)
    {
      PlainSelectionOccurs(selections[i], variable);
    }
  }

  lemma {:induction false} PlainSelectionOccurs(s: Selection, variable: string)
    requires PlainSelection(s)
    ensures OccursIn(s, variable, true) <==> OccursIn(s, variable, false)
    decreases s
  {
    PlainDirectivesOccur(s.directives, variable);
    match s {
      case Field(_, _, arguments, _, sub) =>
        PlainArgumentsOccur(arguments, variable);
        if sub.Present? {
          PlainListOccurs(sub.selections, variable);
        }
      case InlineFragment(_, _, nested) => PlainListOccurs(nested, variable);
      case FragmentSpread(_, _) =>
    }
  }

  /** In a plain selection list, the walk finds exactly the variables that occur. */
  lemma PlainVariablesExact(selections: seq<Selection>, variable: string)
    requires PlainList(selections)
    ensures variable in VariablesIn(SelectionsNode(selections)) <==> OccursInList(selections, variable, false)
  {
    SelectionsVariables(selections, variable);
    PlainListOccurs(selections, variable);
  }

  // ----- The walk sees the spreads and whatever pretends to be one -----

  /** An input object whose entries are those of a spread of `f`. */
  predicate TakenForSpread(v: Value, f: string) {
    && v.Object?
    && "kind" in v.fields && v.fields["kind"] == Str("fragment_spread")
    && "name" in v.fields && IsPlainScalar(v.fields["name"]) && ScalarText(v.fields["name"]) == f
  }

  /** A literal holds such an object, not below an input field called `variables` or
      `location`. */
  predicate Pretends(v: Value, f: string) {
    || TakenForSpread(v, f)
    || match v
       case List(items) => exists i :: 0 <= i < |items| && Pretends(items[i], f)
       case Object(fields) => exists k :: k in fields && k !in {"variables", "location"} && Pretends(fields[k], f)
       case _ => false
  }

  predicate PretendsInArguments(arguments: Option<map<string, Value>>, f: string) {
    arguments.Some? && Pretends(Object(arguments.value), f)
  }

  predicate PretendsInDirectives(ds: seq<Directive>, f: string) {
    exists i :: 0 <= i < |ds| && PretendsInArguments(ds[i].arguments, f)
  }

  predicate PretendsInList(selections: seq<Selection>, f: string)
    decreases selections
  {
    exists i :: 0 <= i < |selections| && PretendsIn(selections[i], f)
  }

  predicate PretendsIn(s: Selection, f: string)
    decreases s
  {
    || PretendsInDirectives(s.directives, f)
    || match s
       case Field(_, _, arguments, _, sub) =>
         || PretendsInArguments(arguments, f)
         || (match sub case Absent => false case Present(nested) => PretendsInList(nested, f))
       case InlineFragment(_, _, nested) => PretendsInList(nested, f)
       case FragmentSpread(_, _) => false
  }

  lemma {:induction false} SpreadMembers(selections: seq<Selection>, f: string)
    ensures f in Spreads(selections) <==> exists i :: 0 <= i < |selections| && f in SpreadsIn(selections[i])
  {
    if selections != [] {
      SpreadMembers(selections[1..], f);
      assert Spreads(selections) == SpreadsIn(selections[0]) + Spreads(selections[1..]);
    }
  }

  lemma {:induction false} ItemSpreadsExact(n: Node, i: nat, f: string)
    requires n.Array? && i <= |n.items|
    ensures f in ItemSpreads(n, i) <==> exists j :: 0 <= j < i && f in NodeSpreads(n.items[j])
    decreases i
  {
    if i > 0 {
      ItemSpreadsExact(n, i - 1, f);
    }
  }

  lemma {:induction false} ValueSpreads(v: Value, f: string)
    ensures f in NodeSpreads(ValueNode(v)) <==> Pretends(v, f)
    decreases v
  {
    var n := ValueNode(v);
    match v {
      case List(items) =>
        ItemSpreadsExact(n, |n.items|, f);
        forall i | 0 <= i < |items| ensures f in NodeSpreads(n.items[i]) <==> Pretends(items[i], f) {
          ValueSpreads(items[i], f);
        }
      case Object(fields) =>
        OwnSpreadOfObject(v, f);
        forall k | k in fields ensures f in NodeSpreads(n.entries[k]) <==> Pretends(fields[k], f) {
          ValueSpreads(fields[k], f);
        }
      case _ =>
    }
  }

  lemma OwnSpreadOfObject(v: Value, f: string)
    requires v.Object?
    ensures f in OwnSpread(ValueNode(v)) <==> TakenForSpread(v, f)
  {
    var n := ValueNode(v);
    if "kind" in v.fields {
      assert n.entries["kind"] == ValueNode(v.fields["kind"]);
      TextOnlyFromString(v.fields["kind"]);
    }
    if "name" in v.fields {
      assert n.entries["name"] == ValueNode(v.fields["name"]);
    }
  }

  lemma TextOnlyFromString(v: Value)
    ensures ValueNode(v) == Text("fragment_spread") <==> v == Str("fragment_spread")
  {
  }

  lemma ArgumentSpreads(arguments: Option<map<string, Value>>, f: string)
    ensures f in OptionSpreads(ArgumentsNode(arguments)) <==> PretendsInArguments(arguments, f)
  {
    if arguments.Some? {
      ValueSpreads(Object(arguments.value), f);
    }
  }

  lemma DirectiveSpreads(ds: seq<Directive>, f: string)
    ensures f in NodeSpreads(DirectivesNode(ds)) <==> PretendsInDirectives(ds, f)
  {
    var n := DirectivesNode(ds);
    ItemSpreadsExact(n, |n.items|, f);
    forall i | 0 <= i < |ds| ensures f in NodeSpreads(n.items[i]) <==> PretendsInArguments(ds[i].arguments, f) {
      DirectiveEntries(ds[i]);
      ArgumentSpreads(ds[i].arguments, f);
    }
  }

  /** What the walk takes for spreads is exactly the spreads and the pretended ones. */
  lemma {:induction false} SelectionsSpreads(selections: seq<Selection>, f: string)
    ensures f in NodeSpreads(SelectionsNode(selections)) <==> f in Spreads(selections) || PretendsInList(selections, f)
    decreases selections
  {
    var n := SelectionsNode(selections);
    SpreadMembers(selections, f);
    ItemSpreadsExact(n, |n.items|, f);
    forall i | 0 <= i < |selections|
      ensures f in NodeSpreads(n.items[i]) <==> f in SpreadsIn(selections[i]) || PretendsIn(selections[i], f)
    {
      SelectionSpreads(selections[i], f);
    }
  }

  lemma {:induction false} SelectionSpreads(s: Selection, f: string)
    ensures f in NodeSpreads(SelectionNode(s)) <==> f in SpreadsIn(s) || PretendsIn(s, f)
    decreases s
  {
    DirectiveSpreads(s.directives, f);
    match s {
      case Field(_, _, arguments, _, sub) =>
        FieldEntries(s);
        ArgumentSpreads(arguments, f);
        if sub.Present? {
          SelectionsSpreads(sub.selections, f);
        }
      case InlineFragment(_, _, nested) =>
        InlineEntries(s);
        SelectionsSpreads(nested, f);
      case FragmentSpread(_, _) =>
        SpreadEntries(s);
    }
  }

  /** The walk finds exactly the fragments spread if and only if nothing pretends to
      spread another one. */
  lemma SpreadsExactIffNothingPretends(selections: seq<Selection>)
    ensures (forall f :: f in NodeSpreads(SelectionsNode(selections)) <==> f in Spreads(selections))
            <==> forall f :: PretendsInList(selections, f) ==> f in Spreads(selections)
  {
    forall f
      ensures f in NodeSpreads(SelectionsNode(selections)) <==>
                f in Spreads(selections) || PretendsInList(selections, f)
    {
      SelectionsSpreads(selections, f);
    }
  }

  /** The walk finds exactly the variables that occur if and only if none occurs only
      below skipped names. */
  lemma VariablesExactIffNoneHidden(selections: seq<Selection>)
    ensures (forall v :: v in VariablesIn(SelectionsNode(selections)) <==> OccursInList(selections, v, false))
            <==> forall v :: OccursInList(selections, v, false) ==> OccursInList(selections, v, true)
  {
    forall v ensures v in VariablesIn(SelectionsNode(selections)) <==> OccursInList(selections, v, true) {
      SelectionsVariables(selections, v);
    }
    forall v | OccursInList(selections, v, true) ensures OccursInList(selections, v, false) {
      UnskippedListOccurs(selections, v);
    }
  }

  lemma {:induction false} UnskippedOccurs(v: Value, variable: string)
    requires Occurs(v, variable, true)
    ensures Occurs(v, variable, false)
    decreases v
  {
    match v {
      case List(items) =>
        var i :| 0 <= i < |items| && Occurs(items[i], variable, true);
        UnskippedOccurs(items[i], variable);
      case Object(fields) =>
        var k :| k in fields && !Skipped(k) && Occurs(fields[k], variable, true);
        UnskippedOccurs(fields[k], variable);
      case _ =>
    }
  }

  lemma UnskippedDirectivesOccur(ds: seq<Directive>, variable: string)
    requires OccursInDirectives(ds, variable, true)
    ensures OccursInDirectives(ds, variable, false)
  {
    var i :| 0 <= i < |ds| && OccursInArguments(ds[i].arguments, variable, true);
    UnskippedOccurs(Object(ds[i].arguments.value), variable);
    assert OccursInArguments(ds[i].arguments, variable, false);
  }

  lemma {:induction false} UnskippedListOccurs(selections: seq<Selection>, variable: string)
    requires OccursInList(selections, variable, true)
    ensures OccursInList(selections, variable, false)
    decreases selections
  {
    var i :| 0 <= i < |selections| && OccursIn(selections[i], variable, true);
    UnskippedSelectionOccurs(selections[i], variable);
  }

  lemma {:induction false} UnskippedSelectionOccurs(s: Selection, variable: string)
    requires OccursIn(s, variable, true)
    ensures OccursIn(s, variable, false)
    decreases s
  {
    if OccursInDirectives(s.directives, variable, true) {
      UnskippedDirectivesOccur(s.directives, variable);
    } else {
      match s {
        case Field(_, _, arguments, _, sub) =>
          if OccursInArguments(arguments, variable, true) {
            UnskippedOccurs(Object(arguments.value), variable);
          } else {
            UnskippedListOccurs(sub.selections, variable);
          }
        case InlineFragment(_, _, nested) => UnskippedListOccurs(nested, variable);
      }
    }
  }

  // ----- Nothing pretends in a plain document -----

  lemma {:induction false} PlainValuePretendsNothing(v: Value, f: string)
    requires Plain(v)
    ensures !Pretends(v, f)
    decreases v
  {
    match v {
      case List(items) =>
        forall i | 0 <= i < |items| ensures !Pretends(items[i], f) {
          PlainValuePretendsNothing(items[i], f);
        }
      case Object(fields) =>
        forall k | k in fields ensures !Pretends(fields[k], f) {
          PlainValuePretendsNothing(fields[k], f);
        }
      case _ =>
    }
  }

  lemma PlainDirectivesPretendNothing(ds: seq<Directive>, f: string)
    requires PlainDirectives(ds)
    ensures !PretendsInDirectives(ds, f)
  {
    forall i | 0 <= i < |ds| ensures !PretendsInArguments(ds[i].arguments, f) {
      if ds[i].arguments.Some? {
        PlainValuePretendsNothing(Object(ds[i].arguments.value), f);
      }
    }
  }

  lemma {:induction false} PlainListPretendsNothing(selections: seq<Selection>, f: string)
    requires PlainList(selections)
    ensures !PretendsInList(selections, f)
    decreases selections
  {
    forall i | 0 <= i < |selections| ensures !PretendsIn(selections[i], f) {
      PlainSelectionPretendsNothing(selections[i], f);
    }
  }

  lemma {:induction false} PlainSelectionPretendsNothing(s: Selection, f: string)
    requires PlainSelection(s)
    ensures !PretendsIn(s, f)
    decreases s
  {
    PlainDirectivesPretendNothing(s.directives, f);
    match s {
      case Field(_, _, arguments, _, sub) =>
        if arguments.Some? {
          PlainValuePretendsNothing(Object(arguments.value), f);
        }
        if sub.Present? {
          PlainListPretendsNothing(sub.selections, f);
        }
      case InlineFragment(_, _, nested) => PlainListPretendsNothing(nested, f);
      case FragmentSpread(_, _) =>
    }
  }

  /** In a plain selection list, the walk finds exactly the fragments spread. */
  lemma PlainSpreadsExact(selections: seq<Selection>, f: string)
    requires PlainList(selections)
    ensures f in NodeSpreads(SelectionsNode(selections)) <==> f in Spreads(selections)
  {
    SelectionsSpreads(selections, f);
    PlainListPretendsNothing(selections, f);
  }

  // ----- What reserved names hide or invent -----

  /** `{ f(k: $v) }`: the variable is found exactly when the argument has neither of two
      names; in `{ f(x: {k: $v}) }` it is the input field that counts. */
  lemma OnlyTwoNamesHide(f: string, k: string, v: string)
    ensures v in VariablesIn(SelectionsNode([Field(None, f, Some(map[k := Variable(v)]), [], Absent)]))
            <==> k != "variables" && k != "location"
    ensures v in VariablesIn(SelectionsNode([Field(None, f, Some(map["x" := Object(map[k := Variable(v)])]), [],
                                                   Absent)]))
            <==> k != "variables" && k != "location"
  {
    var inner := Object(map[k := Variable(v)]);
    assert k in inner.fields && inner.fields[k] == Variable(v);
    assert Occurs(Variable(v), v, true);
    assert Occurs(inner, v, true) <==> k !in {"variables", "location"};
    HiddenAsArgument(f, k, v, Variable(v));
    HiddenAsArgument(f, "x", v, inner);
    assert |"x"| != |"variables"| && |"x"| != |"location"|;
  }

  lemma HiddenAsArgument(f: string, k: string, v: string, value: Value)
    ensures v in VariablesIn(SelectionsNode([Field(None, f, Some(map[k := value]), [], Absent)]))
            <==> k !in {"variables", "location"} && Occurs(value, v, true)
  {
    var s := Field(None, f, Some(map[k := value]), [], Absent);
    var arguments := Object(map[k := value]);
    SelectionsVariables([s], v);
    assert OccursInList([s], v, true) <==> OccursIn([s][0], v, true);
    assert k in arguments.fields && arguments.fields[k] == value;
    assert !OccursInDirectives(s.directives, v, true);
  }

  /** The same for what looks like a spread: it is taken for one exactly when the
      argument has neither of the two names. */
  lemma OnlyTwoNamesHideSpreads(f: string, k: string, name: string)
    ensures name in NodeSpreads(SelectionsNode([Field(None, f, Some(map[k := PretendedSpread(name)]), [], Absent)]))
            <==> k != "variables" && k != "location"
  {
    var s := Field(None, f, Some(map[k := PretendedSpread(name)]), [], Absent);
    var arguments := Object(map[k := PretendedSpread(name)]);
    SelectionsSpreads([s], name);
    assert [s][1..] == [];
    assert PretendsInList([s], name) <==> PretendsIn([s][0], name);
    assert k in arguments.fields && arguments.fields[k] == PretendedSpread(name);
    assert !PretendsInDirectives(s.directives, name);
    assert TakenForSpread(PretendedSpread(name), name) && !TakenForSpread(arguments, name);
    assert Pretends(PretendedSpread(name), name);
    assert Pretends(arguments, name) <==> k !in {"variables", "location"};
    assert Spreads([s]) == [];
  }

  /** A variable used only below an argument named `location` is not found. */
  lemma LocationArgumentHidesVariable()
    ensures var s := Field(None, "near", Some(map["location" := Variable("here")]), [], Absent);
            OccursInList([s], "here", false) && "here" !in VariablesIn(SelectionsNode([s]))
  {
    var s := Field(None, "near", Some(map["location" := Variable("here")]), [], Absent);
    var arguments := Object(map["location" := Variable("here")]);
    assert Occurs(arguments.fields["location"], "here", false);
    assert Occurs(arguments, "here", false);
    assert OccursIn([s][0], "here", false);
    SelectionsVariables([s], "here");
    assert !Occurs(arguments, "here", true);
    assert !OccursInDirectives(s.directives, "here", true);
    assert !OccursIn(s, "here", true);
  }

  /** An input object that looks like a spread. */
  function PretendedSpread(name: string): Value {
    Object(map["kind" := Str("fragment_spread"), "name" := Str(name)])
  }

  /** `{ a(x: {kind: "fragment_spread", name: "F"}) }` spreads nothing, but is taken to spread F. */
  lemma ObjectTakenForSpread()
    ensures var s := Field(None, "a", Some(map["x" := PretendedSpread("F")]), [], Absent);
            Spreads([s]) == [] && "F" in NodeSpreads(SelectionsNode([s]))
  {
    var v := PretendedSpread("F");
    var arguments := Object(map["x" := v]);
    var s := Field(None, "a", Some(arguments.fields), [], Absent);
    assert [s][1..] == [];
    assert TakenForSpread(v, "F");
    assert Pretends(arguments.fields["x"], "F");
    assert Pretends(arguments, "F");
    assert PretendsIn([s][0], "F");
    SelectionsSpreads([s], "F");
  }
}
