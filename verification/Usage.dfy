/**
 Usage analysis: a walk over the raw document tree that collects the variables
 and fragment spreads an operation reaches, each fragment entered once.
 */
module Usage {
  import opened Values

  /** A raw tree node: text and number scalars, a reference to a scalar (how a
      variable is written), other references, arrays and hashes. */
  datatype Node =
    | Undefined
    | Text(text: string)
    | Number(text: string)
    | VariableRef(name: string)
    | OtherRef
    | Array(items: seq<Node>)
    | Hash(entries: map<string, Node>)

  /** Fragment definitions by name, as raw trees. */
  type FragmentNodes = map<string, Node>

  /** The hash entries the walk never enters. */
  predicate Skipped(key: string) {
    key == "variables" || key == "location"
  }

  /** The name spread by a node, when the node is marked as a fragment spread. */
  function SpreadName(n: Node): Option<string> {
    if n.Hash? && "kind" in n.entries && n.entries["kind"] == Text("fragment_spread")
       && "name" in n.entries && (n.entries["name"].Text? || n.entries["name"].Number?)
    then Some(n.entries["name"].text) else None
  }

  /** The selections of a defined fragment, if it has any. */
  function Body(fragments: FragmentNodes, name: string): Option<Node> {
    if name in fragments && fragments[name].Hash? && "selections" in fragments[name].entries
    then Some(fragments[name].entries["selections"]) else None
  }

  // ----- What occurs in a tree, and what is reachable from it -----

  function VariablesIn(n: Node): set<string>
    decreases n, 1
  {
    match n
    case VariableRef(name) => {name}
    case Array(items) => ItemVariables(n, |items|)
    case Hash(entries) => EntryVariables(n, entries.Keys)
    case _ => {}
  }

  /** The variables in the first `i` items of an array. */
  function ItemVariables(n: Node, i: nat): set<string>
    requires n.Array? && i <= |n.items|
    decreases n, 0, i
  {
    if i == 0 then {} else ItemVariables(n, i - 1) + VariablesIn(n.items[i - 1])
  }

  /** The variables under some keys of a hash. */
  function EntryVariables(n: Node, keys: set<string>): set<string>
    requires n.Hash? && keys <= n.entries.Keys
    decreases n, 0
  {
    set k, v | k in keys && !Skipped(k) && v in VariablesIn(n.entries[k]) :: v
  }

  function NodeSpreads(n: Node): set<string>
    decreases n, 1
  {
    match n
    case Array(items) => ItemSpreads(n, |items|)
    case Hash(entries) => OwnSpread(n) + EntrySpreads(n, entries.Keys)
    case _ => {}
  }

  function OwnSpread(n: Node): set<string> {
    if SpreadName(n).Some? then {SpreadName(n).value} else {}
  }

  function ItemSpreads(n: Node, i: nat): set<string>
    requires n.Array? && i <= |n.items|
    decreases n, 0, i
  {
    if i == 0 then {} else ItemSpreads(n, i - 1) + NodeSpreads(n.items[i - 1])
  }

  function EntrySpreads(n: Node, keys: set<string>): set<string>
    requires n.Hash? && keys <= n.entries.Keys
    decreases n, 0
  {
    set k, s | k in keys && !Skipped(k) && s in NodeSpreads(n.entries[k]) :: s
  }

  lemma {:induction false} ItemSpreadsGrow(n: Node, i: nat, j: nat)
    requires n.Array? && i <= j <= |n.items|
    ensures ItemSpreads(n, i) <= ItemSpreads(n, j)
    decreases j
  {
    if i < j {
      ItemSpreadsGrow(n, i, j - 1);
    }
  }

  lemma EntriesInsert(n: Node, keys: set<string>, key: string)
    requires n.Hash? && keys <= n.entries.Keys && key in n.entries
    ensures EntryVariables(n, keys + {key})
            == EntryVariables(n, keys) + (if Skipped(key) then {} else VariablesIn(n.entries[key]))
    ensures EntrySpreads(n, keys + {key})
            == EntrySpreads(n, keys) + (if Skipped(key) then {} else NodeSpreads(n.entries[key]))
  {
  }

  function BodyVariables(fragments: FragmentNodes, name: string): set<string> {
    if Body(fragments, name).Some? then VariablesIn(Body(fragments, name).value) else {}
  }

  function BodySpreads(fragments: FragmentNodes, name: string): set<string> {
    if Body(fragments, name).Some? then NodeSpreads(Body(fragments, name).value) else {}
  }

  /** A chain of spreads: the first in the tree, each next in the body before it. */
  ghost predicate SpreadChain(fragments: FragmentNodes, n: Node, p: seq<string>) {
    && |p| > 0 && p[0] in NodeSpreads(n)
    && forall i :: 0 <= i < |p| - 1 ==> p[i + 1] in BodySpreads(fragments, p[i])
  }

  ghost predicate Reachable(fragments: FragmentNodes, n: Node, name: string) {
    exists p :: SpreadChain(fragments, n, p) && p[|p| - 1] == name
  }

  /** A variable occurs in the tree or in the body of a reachable fragment. */
  ghost predicate Uses(fragments: FragmentNodes, n: Node, variable: string) {
    || variable in VariablesIn(n)
    || exists f :: Reachable(fragments, n, f) && variable in BodyVariables(fragments, f)
  }

  lemma ReachableDirectly(fragments: FragmentNodes, n: Node, name: string)
    requires name in NodeSpreads(n)
    ensures Reachable(fragments, n, name)
  {
    assert SpreadChain(fragments, n, [name]) && [name][|[name]| - 1] == name;
  }

  lemma ReachableBelow(fragments: FragmentNodes, n: Node, m: Node, name: string)
    requires NodeSpreads(m) <= NodeSpreads(n) && Reachable(fragments, m, name)
    ensures Reachable(fragments, n, name)
  {
    var p :| SpreadChain(fragments, m, p) && p[|p| - 1] == name;
    assert SpreadChain(fragments, n, p);
  }

  lemma ReachableThrough(fragments: FragmentNodes, n: Node, via: string, name: string)
    requires via in NodeSpreads(n) && Body(fragments, via).Some?
    requires Reachable(fragments, Body(fragments, via).value, name)
    ensures Reachable(fragments, n, name)
  {
    var p :| SpreadChain(fragments, Body(fragments, via).value, p) && p[|p| - 1] == name;
    var q := [via] + p;
    assert SpreadChain(fragments, n, q) && q[|q| - 1] == name;
  }

  lemma {:induction false} ChainStaysClosed(fragments: FragmentNodes, n: Node, p: seq<string>, closed: set<string>)
    requires SpreadChain(fragments, n, p) && NodeSpreads(n) <= closed
    requires forall f :: f in closed ==> BodySpreads(fragments, f) <= closed
    ensures p[|p| - 1] in closed
    decreases |p|
  {
    if |p| > 1 {
      ChainStaysClosed(fragments, n, p[..|p| - 1], closed);
    }
  }

  // ----- The walk -----

  class UsageCollector {
    const fragments: FragmentNodes
    var variables: set<string>
    var spreads: set<string>
    var visited: set<string>

    constructor (fragments: FragmentNodes)
      ensures this.fragments == fragments && variables == {} && spreads == {} && visited == {}
    {
      this.fragments := fragments;
      variables, spreads, visited := {}, {}, {};
    }

    /** What the bodies of the fragments `names` contribute. */
    ghost function VariablesOf(names: set<string>): set<string> {
      set f, v | f in names && v in BodyVariables(fragments, f) :: v
    }

    ghost function SpreadsOf(names: set<string>): set<string> {
      set f, s | f in names && s in BodySpreads(fragments, f) :: s
    }

    /** The state after walking part of `n`, with these variables and spreads,
        from the given starting state: every newly visited fragment is reachable
        from `n` and has contributed, and nothing it spreads is left unvisited. */
    ghost predicate Reached(vars: set<string>, names: set<string>, n: Node,
                            variables0: set<string>, spreads0: set<string>, visited0: set<string>)
      reads this
    {
      && visited0 <= visited
      && variables == variables0 + vars + VariablesOf(visited - visited0)
      && spreads == spreads0 + names + SpreadsOf(visited - visited0)
      && names + SpreadsOf(visited - visited0) <= visited
      && forall f :: f in visited - visited0 ==> Reachable(fragments, n, f)
    }

    method Collect(n: Node)
      modifies this
      ensures Reached(VariablesIn(n), NodeSpreads(n), n, old(variables), old(spreads), old(visited))
      decreases fragments.Keys - visited, n, 2
    {
      match n {
        case VariableRef(name) =>
          variables := variables + {name};
        case Array(items) =>
          CollectItems(items, n);
        case Hash(entries) =>
          CollectHash(entries, n);
        case _ =>
      }
    }

    method CollectItems(items: seq<Node>, ghost n: Node)
      requires n == Array(items)
      modifies this
      ensures Reached(VariablesIn(n), NodeSpreads(n), n, old(variables), old(spreads), old(visited))
      decreases fragments.Keys - visited, n, 1
    {
      ghost var variables0, spreads0, visited0 := variables, spreads, visited;
      for i := 0 to |items|
        invariant old(visited) <= visited
        invariant Reached(ItemVariables(n, i), ItemSpreads(n, i), n, variables0, spreads0, visited0)
      {
        CollectItem(items, i, n, variables0, spreads0, visited0);
      }
    }

    method CollectItem(items: seq<Node>, i: nat, ghost n: Node,
                       ghost variables0: set<string>, ghost spreads0: set<string>, ghost visited0: set<string>)
      requires n == Array(items) && i < |items|
      requires Reached(ItemVariables(n, i), ItemSpreads(n, i), n, variables0, spreads0, visited0)
      modifies this
      ensures old(visited) <= visited
      ensures Reached(ItemVariables(n, i + 1), ItemSpreads(n, i + 1), n, variables0, spreads0, visited0)
      decreases fragments.Keys - visited, n, 0
    {
      ItemSpreadsGrow(n, i + 1, |items|);
      assert ItemVariables(n, i + 1) == ItemVariables(n, i) + VariablesIn(items[i]);
      assert ItemSpreads(n, i + 1) == ItemSpreads(n, i) + NodeSpreads(items[i]);
      CollectChild(items[i], n, ItemVariables(n, i), ItemSpreads(n, i), variables0, spreads0, visited0);
    }

    lemma JoinContributions(a: set<string>, b: set<string>, c: set<string>)
      requires a <= b <= c
      ensures VariablesOf(c - a) == VariablesOf(b - a) + VariablesOf(c - b)
      ensures SpreadsOf(c - a) == SpreadsOf(b - a) + SpreadsOf(c - b)
    {
    }

    lemma ChildReach(n: Node, child: Node, before: set<string>)
      requires NodeSpreads(child) <= NodeSpreads(n)
      ensures forall f :: f in visited - before && Reachable(fragments, child, f) ==> Reachable(fragments, n, f)
    {
      forall f | f in visited - before && Reachable(fragments, child, f) ensures Reachable(fragments, n, f) {
        ReachableBelow(fragments, n, child, f);
      }
    }

    method CollectHash(entries: map<string, Node>, n: Node)
      requires n == Hash(entries)
      modifies this
      ensures Reached(VariablesIn(n), NodeSpreads(n), n, old(variables), old(spreads), old(visited))
      decreases fragments.Keys - visited, n, 1
    {
      ghost var variables0, spreads0, visited0 := variables, spreads, visited;
      var spread := SpreadName(n);
      if spread.Some? {
        spreads := spreads + {spread.value};
        if spread.value !in visited {
          EnterFragment(spread.value, n);
        }
      }
      CollectEntries(entries, n, variables0, spreads0, visited0);
    }

    /** Walks every entry of a hash but the skipped ones, in any order. */
    method CollectEntries(entries: map<string, Node>, ghost n: Node,
                          ghost variables0: set<string>, ghost spreads0: set<string>, ghost visited0: set<string>)
      requires n == Hash(entries)
      requires Reached({}, OwnSpread(n), n, variables0, spreads0, visited0)
      modifies this
      ensures Reached(VariablesIn(n), NodeSpreads(n), n, variables0, spreads0, visited0)
      decreases fragments.Keys - visited, n, 0
    {
      var keys := entries.Keys;
      ghost var done: set<string> := {};
      while keys != {}
        invariant keys <= entries.Keys && done == entries.Keys - keys
        invariant old(visited) <= visited
        invariant Reached(EntryVariables(n, done), OwnSpread(n)
                          + EntrySpreads(n, done), n, variables0, spreads0, visited0)
        decreases keys
      {
        var key :| key in keys;
        CollectEntry(entries, n, key, done, variables0, spreads0, visited0);
        keys, done := keys - {key}, done + {key};
      }
      assert done == entries.Keys;
    }

    method CollectEntry(entries: map<string, Node>, ghost n: Node, key: string, ghost done: set<string>,
                        ghost variables0: set<string>, ghost spreads0: set<string>, ghost visited0: set<string>)
      requires n == Hash(entries) && key in entries && done <= entries.Keys
      requires Reached(EntryVariables(n, done), OwnSpread(n) + EntrySpreads(n, done), n, variables0, spreads0, visited0)
      modifies this
      ensures old(visited) <= visited
      ensures Reached(EntryVariables(n, done + {key}), OwnSpread(n) + EntrySpreads(n, done + {key}), n,
                      variables0, spreads0, visited0)
      decreases fragments.Keys - visited, n, 0, 0
    {
      EntriesInsert(n, done, key);
      if !Skipped(key) {
        ghost var names := OwnSpread(n) + EntrySpreads(n, done);
        CollectChild(entries[key], n, EntryVariables(n, done), names, variables0, spreads0, visited0);
        assert names + NodeSpreads(entries[key]) == OwnSpread(n) + EntrySpreads(n, done + {key});
      }
    }

    /** Walks a child and adds what it contributes to what its parent has so far. */
    method CollectChild(child: Node, ghost n: Node, ghost vars: set<string>, ghost names: set<string>,
                        ghost variables0: set<string>, ghost spreads0: set<string>, ghost visited0: set<string>)
      requires child < n && NodeSpreads(child) <= NodeSpreads(n)
      requires Reached(vars, names, n, variables0, spreads0, visited0)
      modifies this
      ensures old(visited) <= visited
      ensures Reached(vars + VariablesIn(child), names + NodeSpreads(child), n, variables0, spreads0, visited0)
      decreases fragments.Keys - visited, child, 3
    {
      ghost var before := visited;
      Collect(child);
      ChildReach(n, child, before);
      JoinContributions(visited0, before, visited);
    }

    /** Marks a fragment as visited and walks its selections. */
    method EnterFragment(name: string, ghost n: Node)
      requires name !in visited && name in NodeSpreads(n)
      modifies this
      ensures Reached({}, {}, n, old(variables), old(spreads), old(visited)) && name in visited
      decreases fragments.Keys - visited, n, 0
    {
      visited := visited + {name};
      ReachableDirectly(fragments, n, name);
      assert VariablesOf({name}) == BodyVariables(fragments, name);
      assert SpreadsOf({name}) == BodySpreads(fragments, name);
      ghost var entered := visited;
      assert entered - old(visited) == {name};
      var body := Body(fragments, name);
      if body.Some? {
        Collect(body.value);
        forall f | f in visited - entered ensures Reachable(fragments, n, f) {
          ReachableThrough(fragments, n, name, f);
        }
      }
      JoinContributions(old(visited), entered, visited);
    }

    lemma SpreadsAreReachable(n: Node, f: string)
      requires spreads == NodeSpreads(n) + SpreadsOf(visited) && spreads <= visited
      requires forall g :: g in visited ==> Reachable(fragments, n, g)
      ensures f in spreads <==> Reachable(fragments, n, f)
    {
      forall g | g in visited ensures BodySpreads(fragments, g) <= spreads {
        assert BodySpreads(fragments, g) <= SpreadsOf(visited);
      }
      if Reachable(fragments, n, f) {
        var p :| SpreadChain(fragments, n, p) && p[|p| - 1] == f;
        if |p| > 1 {
          ChainStaysClosed(fragments, n, p[..|p| - 1], visited);
          assert p[|p| - 2] in visited && f in BodySpreads(fragments, p[|p| - 2]);
        }
      }
    }

    lemma VariablesAreUsed(n: Node, v: string)
      requires variables == VariablesIn(n) + VariablesOf(visited)
      requires spreads == NodeSpreads(n) + SpreadsOf(visited) && spreads <= visited
      requires forall g :: g in visited ==> Reachable(fragments, n, g)
      ensures v in variables <==> Uses(fragments, n, v)
    {
      if f :| Reachable(fragments, n, f) && v in BodyVariables(fragments, f) {
        SpreadsAreReachable(n, f);
      }
    }
  }

  // ----- The errors of a document -----

  /** Everything an operation uses, found by one walk from empty sets. */
  method CollectOperation(fragments: FragmentNodes, operation: Node)
    returns (variables: set<string>, spreads: set<string>)
    ensures forall v :: v in variables <==> Uses(fragments, operation, v)
    ensures forall f :: f in spreads <==> Reachable(fragments, operation, f)
  {
    var c := new UsageCollector(fragments);
    c.Collect(operation);
    variables, spreads := c.variables, c.spreads;
    assert c.visited - {} == c.visited;
    forall f ensures f in spreads <==> Reachable(fragments, operation, f) {
      c.SpreadsAreReachable(operation, f);
    }
    forall v ensures v in variables <==> Uses(fragments, operation, v) {
      c.VariablesAreUsed(operation, v);
    }
  }

  datatype UsageError = UnusedVariable(operation: nat, variable: string) | UnusedFragment(definition: nat)

  function DeclaredVariables(operation: Node): set<string> {
    if operation.Hash? && "variables" in operation.entries && operation.entries["variables"].Hash?
    then operation.entries["variables"].entries.Keys else {}
  }

  /** The name of a fragment definition. */
  function FragmentName(n: Node): Option<string> {
    if n.Hash? && "kind" in n.entries && n.entries["kind"] == Text("fragment")
       && "name" in n.entries && (n.entries["name"].Text? || n.entries["name"].Number?)
    then Some(n.entries["name"].text) else None
  }

  /** The fragments the first `k` operations reach. */
  ghost predicate ReachedBy(fragments: FragmentNodes, operations: seq<Node>, k: nat, f: string)
    requires k <= |operations|
  {
    exists j :: 0 <= j < k && Reachable(fragments, operations[j], f)
  }

  ghost predicate Unused(fragments: FragmentNodes, operation: Node, v: string) {
    v in DeclaredVariables(operation) && !Uses(fragments, operation, v)
  }

  ghost predicate ReportedUpTo(fragments: FragmentNodes, operations: seq<Node>, k: nat, errors: seq<UsageError>)
    requires k <= |operations|
  {
    forall e :: e in errors <==>
      e.UnusedVariable? && e.operation < k && Unused(fragments, operations[e.operation], e.variable)
  }

  method ReportOperation(fragments: FragmentNodes, operations: seq<Node>, i: nat, before: seq<UsageError>)
    returns (errors: seq<UsageError>, spreads: set<string>)
    requires i < |operations| && ReportedUpTo(fragments, operations, i, before)
    ensures ReportedUpTo(fragments, operations, i + 1, errors)
    ensures forall f :: f in spreads <==> Reachable(fragments, operations[i], f)
  {
    var variables;
    variables, spreads := CollectOperation(fragments, operations[i]);
    errors := ReportUnused(before, i, DeclaredVariables(operations[i]), variables);
  }

  /** Reports every declared variable its operation never uses and every fragment
      definition no operation reaches. */
  method PushUsageErrors(definitions: seq<Node>, operations: seq<Node>, fragments: FragmentNodes)
    returns (errors: seq<UsageError>)
    requires forall i :: 0 <= i < |operations| ==> operations[i].Hash?
    ensures forall i: nat, v :: UnusedVariable(i, v) in errors <==>
              i < |operations| && Unused(fragments, operations[i], v)
    ensures forall k: nat :: UnusedFragment(k) in errors <==>
              && k < |definitions| && FragmentName(definitions[k]).Some?
              && !ReachedBy(fragments, operations, |operations|, FragmentName(definitions[k]).value)
  {
    errors := [];
    var reachable: set<string> := {};
    for i := 0 to |operations|
      invariant forall f :: f in reachable <==> ReachedBy(fragments, operations, i, f)
      invariant ReportedUpTo(fragments, operations, i, errors)
    {
      var spreads;
      errors, spreads := ReportOperation(fragments, operations, i, errors);
      reachable := reachable + spreads;
    }
    errors := ReportUnreached(errors, definitions, reachable);
  }

  /** Appends one error for each fragment definition whose name was not reached. */
  method ReportUnreached(before: seq<UsageError>, definitions: seq<Node>, reachable: set<string>)
    returns (errors: seq<UsageError>)
    requires forall k: nat :: UnusedFragment(k) !in before
    ensures forall e :: e in errors <==>
              || e in before
              || (&& e.UnusedFragment? && e.definition < |definitions| && FragmentName(definitions[e.definition]).Some?
                  && FragmentName(definitions[e.definition]).value !in reachable)
  {
    errors := before;
    for k := 0 to |definitions|
      invariant forall e :: e in errors <==>
                  || e in before
                  || (&& e.UnusedFragment? && e.definition < k && FragmentName(definitions[e.definition]).Some?
                      && FragmentName(definitions[e.definition]).value !in reachable)
    {
      var name := FragmentName(definitions[k]);
      if name.Some? && name.value !in reachable {
        errors := errors + [UnusedFragment(k)];
      }
    }
  }

  /** Appends one error for each declared name that is not used, in any order. */
  method ReportUnused(errors: seq<UsageError>, operation: nat, declared: set<string>, used: set<string>)
    returns (r: seq<UsageError>)
    ensures forall e :: e in r <==>
              e in errors || (e.UnusedVariable? && e.operation == operation && e.variable in declared - used)
  {
    r := errors;
    var names := declared;
    while names != {}
      invariant names <= declared
      invariant forall e :: e in r <==>
                e in errors || (e.UnusedVariable? && e.operation == operation && e.variable in declared - names - used)
      decreases names
    {
      var name :| name in names;
      names := names - {name};
      if name !in used {
        r := r + [UnusedVariable(operation, name)];
      }
    }
  }
}
