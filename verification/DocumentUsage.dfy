/**
 Usage analysis of whole documents: which variables and fragments are reported, in
 terms of operations, fragment definitions and the spreads between them.
 */
module DocumentUsage {
  import opened Values
  import opened Document
  import opened Usage
  import opened UsageOfDocuments

  /** A definition of an executable document. Variable definitions are raw: the walk
      reads no more than their names. */
  datatype Definition =
    | OperationDefinition(operationType: Option<string>, name: Option<string>, variables: Option<map<string, Node>>,
                          directives: seq<Directive>, selections: seq<Selection>)
    | FragmentDefinition(fragment: string, on: string, directives: seq<Directive>, selections: seq<Selection>)

  // ----- The raw tree of a document -----

  function DirectiveList(ds: seq<Directive>): Option<Node> {
    if ds == [] then None else Some(DirectivesNode(ds))
  }

  /** The entries of a definition besides its directives and selections. */
  function Heading(d: Definition): map<string, Node> {
    match d
    case OperationDefinition(operationType, name, variables, _, _) =>
      Put(Put(Put(map["kind" := Text("operation")], "operationType", TextNode(operationType)), "name", TextNode(name)),
          "variables", if variables.Some? then Some(Hash(variables.value)) else None)
    case FragmentDefinition(fragment, on, _, _) =>
      map["kind" := Text("fragment"), "name" := Text(fragment), "on" := Text(on)]
  }

  function DefinitionNode(d: Definition): Node {
    Hash(Put(Put(Heading(d), "directives", DirectiveList(d.directives)), "selections",
             Some(SelectionsNode(d.selections))))
  }

  function DocumentNodes(doc: seq<Definition>): (nodes: seq<Node>)
    ensures |nodes| == |doc| && forall k :: 0 <= k < |doc| ==> nodes[k] == DefinitionNode(doc[k])
  {
    seq(|doc|, k requires 0 <= k < |doc| => DefinitionNode(doc[k]))
  }

  // ----- Sorting definitions -----

  predicate IsOperationNode(n: Node) {
    n.Hash? && "kind" in n.entries && n.entries["kind"] == Text("operation")
  }

  function OperationNodes(nodes: seq<Node>): (operations: seq<Node>)
    ensures forall i :: 0 <= i < |operations| ==> operations[i].Hash?
  {
    if nodes == [] then []
    else
      var k := |nodes| - 1;
      OperationNodes(nodes[..k]) + if IsOperationNode(nodes[k]) then [nodes[k]] else []
  }

  function FragmentNodesOf(nodes: seq<Node>): FragmentNodes {
    if nodes == [] then map[]
    else
      var k := |nodes| - 1;
      var before := FragmentNodesOf(nodes[..k]);
      if FragmentName(nodes[k]).Some? then before[FragmentName(nodes[k]).value := nodes[k]] else before
  }

  method CollectOperations(nodes: seq<Node>) returns (operations: seq<Node>)
    ensures operations == OperationNodes(nodes)
  {
    operations := [];
    for i := 0 to |nodes|
      invariant operations == OperationNodes(nodes[..i])
    {
      assert nodes[..i + 1][..i] == nodes[..i];
      if IsOperationNode(nodes[i]) {
        operations := operations + [nodes[i]];
      }
    }
    assert nodes[..|nodes|] == nodes;
  }

  /** The fragment definitions by name; a later definition replaces an earlier one. */
  method BuildFragmentsMap(nodes: seq<Node>) returns (fragments: FragmentNodes)
    ensures fragments == FragmentNodesOf(nodes)
  {
    fragments := map[];
    for i := 0 to |nodes|
      invariant fragments == FragmentNodesOf(nodes[..i])
    {
      assert nodes[..i + 1][..i] == nodes[..i];
      var name := FragmentName(nodes[i]);
      if name.Some? {
        fragments := fragments[name.value := nodes[i]];
      }
    }
    assert nodes[..|nodes|] == nodes;
  }

  function Operations(doc: seq<Definition>): (ops: seq<Definition>)
    ensures forall i :: 0 <= i < |ops| ==> ops[i].OperationDefinition?
  {
    if doc == [] then []
    else
      var k := |doc| - 1;
      Operations(doc[..k]) + if doc[k].OperationDefinition? then [doc[k]] else []
  }

  function FragmentsOf(doc: seq<Definition>): Fragments {
    if doc == [] then map[]
    else
      var k := |doc| - 1;
      var before := FragmentsOf(doc[..k]);
      if doc[k].FragmentDefinition? then before[doc[k].fragment := Fragment(doc[k].on, doc[k].selections)] else before
  }

  /** Of several fragments of one name the last one counts. */
  lemma {:induction false} LastFragmentCounts(doc: seq<Definition>, k: nat)
    requires k < |doc| && doc[k].FragmentDefinition?
    requires forall l :: k < l < |doc| && doc[l].FragmentDefinition? ==> doc[l].fragment != doc[k].fragment
    ensures doc[k].fragment in FragmentsOf(doc)
    ensures FragmentsOf(doc)[doc[k].fragment] == Fragment(doc[k].on, doc[k].selections)
    decreases |doc|
  {
    if k < |doc| - 1 {
      LastFragmentCounts(doc[..|doc| - 1], k);
    }
  }

  lemma {:induction false} FragmentsAreDefined(doc: seq<Definition>, f: string)
    requires f in FragmentsOf(doc)
    ensures exists k :: 0 <= k < |doc| && doc[k].FragmentDefinition? && doc[k].fragment == f
    decreases |doc|
  {
    var n := |doc| - 1;
    if doc[n].FragmentDefinition? && doc[n].fragment == f {
      return;
    }
    FragmentsAreDefined(doc[..n], f);
    var k :| 0 <= k < n && doc[..n][k].FragmentDefinition? && doc[..n][k].fragment == f;
    assert doc[k].fragment == f;
  }

  /** Operations come in the order of the document, and nothing else does. */
  lemma {:induction false} OperationsInOrder(xs: seq<Definition>, ys: seq<Definition>, d: Definition)
    ensures Operations(xs + ys) == Operations(xs) + Operations(ys)
    ensures Operations([d]) == match d case OperationDefinition(_, _, _, _, _) => [d]
                                       case FragmentDefinition(_, _, _, _) => []
    decreases |ys|
  {
    assert [d][..0] == [];
    if ys == [] {
      assert xs + ys == xs;
    } else {
      OperationsInOrder(xs, ys[..|ys| - 1], d);
      assert (xs + ys)[..|xs + ys| - 1] == xs + ys[..|ys| - 1];
    }
  }

  lemma DefinitionEntries(d: Definition)
    ensures var m := DefinitionNode(d).entries;
            && m["kind"] == Heading(d)["kind"]
            && m["selections"] == SelectionsNode(d.selections)
            && ("name" in m <==> "name" in Heading(d)) && ("name" in m ==> m["name"] == Heading(d)["name"])
            && ("variables" in m <==> "variables" in Heading(d))
            && ("variables" in m ==> m["variables"] == Heading(d)["variables"])
  {
    assert "kind" in Heading(d);
  }

  lemma DefinitionKind(d: Definition)
    ensures IsOperationNode(DefinitionNode(d)) <==> d.OperationDefinition?
    ensures FragmentName(DefinitionNode(d)) == if d.FragmentDefinition? then Some(d.fragment) else None
    ensures DeclaredVariables(DefinitionNode(d)) == Declared(d)
  {
    DefinitionEntries(d);
    assert Text("operation") != Text("fragment") by {
      assert |"operation"| != |"fragment"|;
    }
  }

  /** The variables an operation declares. */
  function Declared(d: Definition): set<string> {
    if d.OperationDefinition? && d.variables.Some? then d.variables.value.Keys else {}
  }

  function OperationTrees(ops: seq<Definition>): (trees: seq<Node>)
    ensures |trees| == |ops| && forall i :: 0 <= i < |ops| ==> trees[i] == DefinitionNode(ops[i])
  {
    seq(|ops|, i requires 0 <= i < |ops| => DefinitionNode(ops[i]))
  }

  lemma {:induction false} OperationsMatch(doc: seq<Definition>)
    ensures OperationNodes(DocumentNodes(doc)) == OperationTrees(Operations(doc))
    decreases |doc|
  {
    if doc != [] {
      var k := |doc| - 1;
      OperationsMatch(doc[..k]);
      DefinitionKind(doc[k]);
      assert DocumentNodes(doc)[..k] == DocumentNodes(doc[..k]);
      assert OperationTrees(Operations(doc[..k]) + [doc[k]])
             == OperationTrees(Operations(doc[..k])) + [DefinitionNode(doc[k])];
      assert Operations(doc[..k]) + [] == Operations(doc[..k]);
    }
  }

  lemma {:induction false} FragmentsMatch(doc: seq<Definition>, f: string)
    ensures f in FragmentNodesOf(DocumentNodes(doc)) <==> f in FragmentsOf(doc)
    ensures Body(FragmentNodesOf(DocumentNodes(doc)), f)
            == if f in FragmentsOf(doc) then Some(SelectionsNode(FragmentsOf(doc)[f].selections)) else None
    decreases |doc|
  {
    if doc != [] {
      var k := |doc| - 1;
      FragmentsMatch(doc[..k], f);
      DefinitionKind(doc[k]);
      DefinitionEntries(doc[k]);
      assert DocumentNodes(doc)[..k] == DocumentNodes(doc[..k]);
    }
  }

  // ----- What the walk sees of an operation -----

  lemma HeadingEntries(d: Definition)
    ensures EntryVariables(Hash(Heading(d)), Heading(d).Keys) == {}
            && EntrySpreads(Hash(Heading(d)), Heading(d).Keys) == {}
    ensures "directives" !in Heading(d) && "selections" !in Heading(d)
  {
    forall k | k in Heading(d) && !Skipped(k) ensures Heading(d)[k].Text? {}
  }

  lemma DefinitionContents(d: Definition)
    ensures VariablesIn(DefinitionNode(d))
            == NodeVariables(DirectiveList(d.directives)) + VariablesIn(SelectionsNode(d.selections))
    ensures NodeSpreads(DefinitionNode(d))
            == OptionSpreads(DirectiveList(d.directives)) + NodeSpreads(SelectionsNode(d.selections))
  {
    HeadingEntries(d);
    PutEntries(Heading(d), "directives", DirectiveList(d.directives));
    PutEntries(Put(Heading(d), "directives", DirectiveList(d.directives)), "selections",
               Some(SelectionsNode(d.selections)));
    DefinitionEntries(d);
    NotASpread(d);
  }

  lemma NotASpread(d: Definition)
    ensures OwnSpread(DefinitionNode(d)) == {}
  {
    DefinitionEntries(d);
    assert |"fragment_spread"| != |"operation"| && |"fragment_spread"| != |"fragment"|;
  }

  /** An operation's own uses: in its directives and its selections. */
  predicate Mentions(d: Definition, variable: string, skipping: bool) {
    OccursInDirectives(d.directives, variable, skipping) || OccursInList(d.selections, variable, skipping)
  }

  /** What the walk takes for a spread in an operation. */
  predicate SeesSpread(d: Definition, f: string) {
    f in Spreads(d.selections) || PretendsInDirectives(d.directives, f) || PretendsInList(d.selections, f)
  }

  lemma DefinitionUses(d: Definition, variable: string)
    ensures variable in VariablesIn(DefinitionNode(d)) <==> Mentions(d, variable, true)
  {
    DefinitionContents(d);
    SelectionsVariables(d.selections, variable);
    DirectiveVariables(d.directives, variable);
  }

  lemma DefinitionSpreads(d: Definition, f: string)
    ensures f in NodeSpreads(DefinitionNode(d)) <==> SeesSpread(d, f)
  {
    DefinitionContents(d);
    SelectionsSpreads(d.selections, f);
    DirectiveSpreads(d.directives, f);
  }

  // ----- Reaching fragments -----

  /** Chains of spreads from an operation; with `pretended`, objects that look like
      spreads count as well. */
  ghost predicate Leads(doc: seq<Definition>, d: Definition, p: seq<string>, pretended: bool) {
    && |p| > 0
    && (p[0] in Spreads(d.selections) || (pretended && SeesSpread(d, p[0])))
    && forall i :: 0 <= i < |p| - 1 ==> BodySpreadsTo(doc, p[i], p[i + 1], pretended)
  }

  ghost predicate BodySpreadsTo(doc: seq<Definition>, f: string, g: string, pretended: bool) {
    && f in FragmentsOf(doc)
    && (g in Spreads(FragmentsOf(doc)[f].selections)
        || (pretended && PretendsInList(FragmentsOf(doc)[f].selections, g)))
  }

  ghost predicate Reaches(doc: seq<Definition>, d: Definition, f: string, pretended: bool) {
    exists p :: Leads(doc, d, p, pretended) && p[|p| - 1] == f
  }

  /** An operation uses a variable: itself, or in the body of a fragment it reaches. */
  ghost predicate UsesVariable(doc: seq<Definition>, d: Definition, variable: string, asWalked: bool) {
    || Mentions(d, variable, asWalked)
    || exists f :: Reaches(doc, d, f, asWalked) && f in FragmentsOf(doc)
                   && OccursInList(FragmentsOf(doc)[f].selections, variable, asWalked)
  }

  lemma ChainsMatch(doc: seq<Definition>, d: Definition, p: seq<string>)
    ensures SpreadChain(FragmentNodesOf(DocumentNodes(doc)), DefinitionNode(d), p) <==> Leads(doc, d, p, true)
  {
    var fragments := FragmentNodesOf(DocumentNodes(doc));
    if |p| > 0 {
      DefinitionSpreads(d, p[0]);
      forall i | 0 <= i < |p| - 1
        ensures p[i + 1] in BodySpreads(fragments, p[i]) <==> BodySpreadsTo(doc, p[i], p[i + 1], true)
      {
        FragmentsMatch(doc, p[i]);
        if p[i] in FragmentsOf(doc) {
          SelectionsSpreads(FragmentsOf(doc)[p[i]].selections, p[i + 1]);
        }
      }
    }
  }

  lemma ReachesMatch(doc: seq<Definition>, d: Definition, f: string)
    ensures Reachable(FragmentNodesOf(DocumentNodes(doc)), DefinitionNode(d), f) <==> Reaches(doc, d, f, true)
  {
    var fragments := FragmentNodesOf(DocumentNodes(doc));
    if Reachable(fragments, DefinitionNode(d), f) {
      var p :| SpreadChain(fragments, DefinitionNode(d), p) && p[|p| - 1] == f;
      ChainsMatch(doc, d, p);
    }
    if Reaches(doc, d, f, true) {
      var p :| Leads(doc, d, p, true) && p[|p| - 1] == f;
      ChainsMatch(doc, d, p);
    }
  }

  lemma UsesMatch(doc: seq<Definition>, d: Definition, variable: string)
    ensures Uses(FragmentNodesOf(DocumentNodes(doc)), DefinitionNode(d), variable) <==>
              UsesVariable(doc, d, variable, true)
  {
    var fragments := FragmentNodesOf(DocumentNodes(doc));
    DefinitionUses(d, variable);
    forall f
      ensures Reachable(fragments, DefinitionNode(d), f) && variable in BodyVariables(fragments, f)
              <==> Reaches(doc, d, f, true) && f in FragmentsOf(doc)
                   && OccursInList(FragmentsOf(doc)[f].selections, variable, true)
    {
      ReachesMatch(doc, d, f);
      FragmentsMatch(doc, f);
      if f in FragmentsOf(doc) {
        SelectionsVariables(FragmentsOf(doc)[f].selections, variable);
      }
    }
  }

  // ----- Documents in which the walk sees what there is -----

  /** Nothing in a selection list pretends to be a spread of something else, and no
      variable occurs only below skipped names. */
  ghost predicate HonestList(selections: seq<Selection>) {
    && (forall f :: PretendsInList(selections, f) ==> f in Spreads(selections))
    && forall v :: OccursInList(selections, v, false) ==> OccursInList(selections, v, true)
  }

  ghost predicate HonestOperation(d: Definition) {
    && (forall f :: SeesSpread(d, f) ==> f in Spreads(d.selections))
    && forall v :: Mentions(d, v, false) ==> Mentions(d, v, true)
  }

  ghost predicate Honest(doc: seq<Definition>) {
    && (forall i :: 0 <= i < |Operations(doc)| ==> HonestOperation(Operations(doc)[i]))
    && forall f :: f in FragmentsOf(doc) ==> HonestList(FragmentsOf(doc)[f].selections)
  }

  lemma UnskippedMentioned(d: Definition, variable: string)
    requires Mentions(d, variable, true)
    ensures Mentions(d, variable, false)
  {
    if OccursInDirectives(d.directives, variable, true) {
      UnskippedDirectivesOccur(d.directives, variable);
    } else {
      UnskippedListOccurs(d.selections, variable);
    }
  }

  lemma HonestReach(doc: seq<Definition>, d: Definition, f: string)
    requires Honest(doc) && HonestOperation(d)
    ensures Reaches(doc, d, f, true) <==> Reaches(doc, d, f, false)
  {
    if Reaches(doc, d, f, true) {
      var p :| Leads(doc, d, p, true) && p[|p| - 1] == f;
      assert Leads(doc, d, p, false);
    }
    if Reaches(doc, d, f, false) {
      var p :| Leads(doc, d, p, false) && p[|p| - 1] == f;
      assert Leads(doc, d, p, true);
    }
  }

  lemma HonestUses(doc: seq<Definition>, d: Definition, variable: string)
    requires Honest(doc) && HonestOperation(d)
    ensures UsesVariable(doc, d, variable, true) <==> UsesVariable(doc, d, variable, false)
  {
    if Mentions(d, variable, true) {
      UnskippedMentioned(d, variable);
    }
    forall f | f in FragmentsOf(doc)
      ensures Reaches(doc, d, f, true) <==> Reaches(doc, d, f, false)
      ensures OccursInList(FragmentsOf(doc)[f].selections, variable, true)
              <==> OccursInList(FragmentsOf(doc)[f].selections, variable, false)
    {
      HonestReach(doc, d, f);
      if OccursInList(FragmentsOf(doc)[f].selections, variable, true) {
        UnskippedListOccurs(FragmentsOf(doc)[f].selections, variable);
      }
    }
  }

  /** No argument or input field of a document has a reserved name. */
  predicate PlainDocument(doc: seq<Definition>) {
    forall k :: 0 <= k < |doc| ==> PlainDirectives(doc[k].directives) && PlainList(doc[k].selections)
  }

  lemma {:induction false} OperationIsDefinition(doc: seq<Definition>, i: nat) returns (k: nat)
    requires i < |Operations(doc)|
    ensures k < |doc| && Operations(doc)[i] == doc[k]
    decreases |doc|
  {
    var n := |doc| - 1;
    if i < |Operations(doc[..n])| {
      k := OperationIsDefinition(doc[..n], i);
    } else {
      k := n;
    }
  }

  lemma {:induction false} FragmentIsDefinition(doc: seq<Definition>, f: string) returns (k: nat)
    requires f in FragmentsOf(doc)
    ensures k < |doc| && FragmentsOf(doc)[f].selections == doc[k].selections
    decreases |doc|
  {
    var n := |doc| - 1;
    if doc[n].FragmentDefinition? && doc[n].fragment == f {
      k := n;
    } else {
      k := FragmentIsDefinition(doc[..n], f);
    }
  }

  lemma PlainIsHonest(doc: seq<Definition>)
    requires PlainDocument(doc)
    ensures Honest(doc)
  {
    forall i | 0 <= i < |Operations(doc)| ensures HonestOperation(Operations(doc)[i]) {
      var k := OperationIsDefinition(doc, i);
      PlainOperation(doc[k]);
    }
    forall f | f in FragmentsOf(doc) ensures HonestList(FragmentsOf(doc)[f].selections) {
      var k := FragmentIsDefinition(doc, f);
      PlainOperation(doc[k]);
    }
  }

  lemma PlainOperation(d: Definition)
    requires PlainDirectives(d.directives) && PlainList(d.selections)
    ensures HonestOperation(d) && HonestList(d.selections)
  {
    forall f ensures !PretendsInDirectives(d.directives, f) && !PretendsInList(d.selections, f) {
      PlainDirectivesPretendNothing(d.directives, f);
      PlainListPretendsNothing(d.selections, f);
    }
    forall v
      ensures OccursInDirectives(d.directives, v, true) <==> OccursInDirectives(d.directives, v, false)
      ensures OccursInList(d.selections, v, true) <==> OccursInList(d.selections, v, false)
    {
      PlainDirectivesOccur(d.directives, v);
      PlainListOccurs(d.selections, v);
    }
  }

  // ----- The errors of a document -----

  /** What is reported, in terms of what the walk sees (`asWalked`) or of what there is. */
  ghost predicate Reports(doc: seq<Definition>, errors: seq<UsageError>, asWalked: bool) {
    && (forall i: nat, v :: UnusedVariable(i, v) in errors <==>
          i < |Operations(doc)| && v in Declared(Operations(doc)[i])
          && !UsesVariable(doc, Operations(doc)[i], v, asWalked))
    && (forall k: nat :: UnusedFragment(k) in errors <==>
          && k < |doc| && doc[k].FragmentDefinition?
          && forall i :: 0 <= i < |Operations(doc)| ==> !Reaches(doc, Operations(doc)[i], doc[k].fragment, asWalked))
  }

  ghost predicate ReachedByAny(doc: seq<Definition>, f: string, asWalked: bool) {
    exists i :: 0 <= i < |Operations(doc)| && Reaches(doc, Operations(doc)[i], f, asWalked)
  }

  /** The walk sees no declared variable and no defined fragment otherwise than it is. */
  ghost predicate SeenAlike(doc: seq<Definition>) {
    && (forall i, v :: 0 <= i < |Operations(doc)| && v in Declared(Operations(doc)[i]) ==>
          (UsesVariable(doc, Operations(doc)[i], v, true) <==> UsesVariable(doc, Operations(doc)[i], v, false)))
    && (forall k :: 0 <= k < |doc| && doc[k].FragmentDefinition? ==>
          (ReachedByAny(doc, doc[k].fragment, true) <==> ReachedByAny(doc, doc[k].fragment, false)))
  }

  /** What the walk reports is right exactly when it sees every declared variable and
      every defined fragment as it is. */
  lemma ReportsRightIffSeenAlike(doc: seq<Definition>, errors: seq<UsageError>)
    requires Reports(doc, errors, true)
    ensures Reports(doc, errors, false) <==> SeenAlike(doc)
  {
    if Reports(doc, errors, false) {
      forall i: nat, v | i < |Operations(doc)| && v in Declared(Operations(doc)[i])
        ensures UsesVariable(doc, Operations(doc)[i], v, true) <==> UsesVariable(doc, Operations(doc)[i], v, false)
      {
        assert UnusedVariable(i, v) in errors <==> !UsesVariable(doc, Operations(doc)[i], v, true);
      }
      forall k: nat | k < |doc| && doc[k].FragmentDefinition?
        ensures ReachedByAny(doc, doc[k].fragment, true) <==> ReachedByAny(doc, doc[k].fragment, false)
      {
        assert UnusedFragment(k) in errors <==> !ReachedByAny(doc, doc[k].fragment, true);
      }
    }
  }

  lemma HonestIsSeenAlike(doc: seq<Definition>)
    requires Honest(doc)
    ensures SeenAlike(doc)
  {
    forall i, v | 0 <= i < |Operations(doc)|
      ensures UsesVariable(doc, Operations(doc)[i], v, true) <==> UsesVariable(doc, Operations(doc)[i], v, false)
    {
      HonestUses(doc, Operations(doc)[i], v);
    }
    forall i, f | 0 <= i < |Operations(doc)|
      ensures Reaches(doc, Operations(doc)[i], f, true) <==> Reaches(doc, Operations(doc)[i], f, false)
    {
      HonestReach(doc, Operations(doc)[i], f);
    }
  }

  /** The usage errors of a document. A variable is reported exactly when it is
      declared and occurs neither in its operation nor in a fragment reached from it,
      a fragment exactly when no operation reaches it: as the walk sees the document,
      and as it is if and only if the walk sees it as it is. */
  method ReportUsage(doc: seq<Definition>) returns (errors: seq<UsageError>)
    ensures Reports(doc, errors, true)
    ensures Reports(doc, errors, false) <==> SeenAlike(doc)
    ensures Honest(doc) || PlainDocument(doc) ==> Reports(doc, errors, false)
  {
    var nodes := DocumentNodes(doc);
    var operations := CollectOperations(nodes);
    var fragments := BuildFragmentsMap(nodes);
    errors := PushUsageErrors(nodes, operations, fragments);
    NodeReports(doc, errors);
    ReportsRightIffSeenAlike(doc, errors);
    if PlainDocument(doc) {
      PlainIsHonest(doc);
    }
    if Honest(doc) {
      HonestIsSeenAlike(doc);
    }
  }

  /** Errors over the raw tree of a document are errors over the document. */
  lemma NodeReports(doc: seq<Definition>, errors: seq<UsageError>)
    requires var nodes := DocumentNodes(doc);
             var operations, fragments := OperationNodes(nodes), FragmentNodesOf(nodes);
             && (forall i: nat, v :: UnusedVariable(i, v) in errors <==>
                   i < |operations| && Unused(fragments, operations[i], v))
             && (forall k: nat :: UnusedFragment(k) in errors <==>
                   && k < |nodes| && FragmentName(nodes[k]).Some?
                   && !ReachedBy(fragments, operations, |operations|, FragmentName(nodes[k]).value))
    ensures Reports(doc, errors, true)
  {
    var nodes := DocumentNodes(doc);
    var operations, fragments := OperationNodes(nodes), FragmentNodesOf(nodes);
    OperationsMatch(doc);
    forall i, v | 0 <= i < |operations|
      ensures Unused(fragments, operations[i], v)
              <==> v in Declared(Operations(doc)[i]) && !UsesVariable(doc, Operations(doc)[i], v, true)
    {
      UsesMatch(doc, Operations(doc)[i], v);
      DefinitionKind(Operations(doc)[i]);
    }
    forall k | 0 <= k < |doc|
      ensures FragmentName(nodes[k]) == if doc[k].FragmentDefinition? then Some(doc[k].fragment) else None
    {
      DefinitionKind(doc[k]);
    }
    forall f
      ensures ReachedBy(fragments, operations, |operations|, f)
              <==> exists i :: 0 <= i < |Operations(doc)| && Reaches(doc, Operations(doc)[i], f, true)
    {
      forall i | 0 <= i < |Operations(doc)|
        ensures Reachable(fragments, operations[i], f) <==> Reaches(doc, Operations(doc)[i], f, true)
      {
        ReachesMatch(doc, Operations(doc)[i], f);
      }
    }
  }

  // ----- Where the walk is wrong -----

  /** `query ($here) { near(location: $here) }`: the variable is used, and reported. */
  lemma HiddenUseIsReported(d: Definition)
    requires d == OperationDefinition(None, None, Some(map["here" := Undefined]), [],
                                      [Field(None, "near", Some(map["location" := Variable("here")]), [], Absent)])
    ensures Operations([d]) == [d] && "here" in Declared(d)
    ensures UsesVariable([d], d, "here", false) && !UsesVariable([d], d, "here", true)
    ensures !SeenAlike([d])
  {
    HiddenUse(d);
    assert UsesVariable([d], Operations([d])[0], "here", false);
  }

  lemma HiddenUse(d: Definition)
    requires d == OperationDefinition(None, None, Some(map["here" := Undefined]), [],
                                      [Field(None, "near", Some(map["location" := Variable("here")]), [], Absent)])
    ensures Operations([d]) == [d] && "here" in Declared(d)
    ensures UsesVariable([d], d, "here", false) && !UsesVariable([d], d, "here", true)
  {
    assert [d][..0] == [] && FragmentsOf([d]) == map[];
    LocationArgumentHidesVariable();
    SelectionsVariables(d.selections, "here");
    assert Mentions(d, "here", false) && !Mentions(d, "here", true);
  }

  /** `{ a(x: {kind: "fragment_spread", name: "F"}) } fragment F on Q { b }`: the
      fragment is never spread, and not reported. */
  lemma PretendedSpreadHidesFragment(d: Definition, f: Definition)
    requires d == OperationDefinition(None, None, None, [],
                                      [Field(None, "a", Some(map["x" := PretendedSpread("F")]), [], Absent)])
    requires f == FragmentDefinition("F", "Q", [], [Field(None, "b", None, [], Absent)])
    ensures Operations([d, f]) == [d]
    ensures Reaches([d, f], d, "F", true) && !Reaches([d, f], d, "F", false)
    ensures !SeenAlike([d, f])
  {
    assert [d, f][..1] == [d] && [d][..0] == [];
    assert Operations([d]) == [d] && [d] + [] == [d];
    ObjectTakenForSpread();
    SelectionsSpreads(d.selections, "F");
    assert Spreads(d.selections) == [] by {
      assert d.selections[1..] == [];
    }
    assert SeesSpread(d, "F");
    assert Leads([d, f], d, ["F"], true) && ["F"][|["F"]| - 1] == "F";
    assert Reaches([d, f], Operations([d, f])[0], "F", true) && ReachedByAny([d, f], [d, f][1].fragment, true);
  }
}
