/**
 The fields field merging compares: those of a selection list, of its inline
 fragments and of every fragment it spreads, each fragment taken once.
 */
module FieldCollection {
  import opened Values
  import opened Document

  /** A collected field and the type its selection list applies to. */
  datatype Entry = Entry(field: FieldSelection, parent: string)

  type FieldSelection = s: Selection | s.Field? witness Field(None, "", None, [], Absent)

  function ResponseKey(e: Entry): string {
    if e.field.alias.Some? then e.field.alias.value else e.field.name
  }

  function TargetType(on: Option<string>, parent: string): string {
    if on.Some? then on.value else parent
  }

  // ----- Collection with a visited set -----

  datatype Collected = Collected(out: seq<Entry>, visited: set<string>)

  function Collect(fragments: Fragments, selections: seq<Selection>, parent: string,
                   visited: set<string>): (r: Collected)
    ensures visited <= r.visited
    decreases fragments.Keys - visited, selections
  {
    if selections == [] then Collected([], visited)
    else
      var first := CollectOne(fragments, selections[0], parent, visited);
      var rest := Collect(fragments, selections[1..], parent, first.visited);
      Collected(first.out + rest.out, rest.visited)
  }

  function CollectOne(fragments: Fragments, selection: Selection, parent: string, visited: set<string>): (r: Collected)
    ensures visited <= r.visited
    decreases fragments.Keys - visited, selection
  {
    match selection
    case Field(_, _, _, _, _) => Collected([Entry(selection, parent)], visited)
    case InlineFragment(on, _, nested) => Collect(fragments, nested, TargetType(on, parent), visited)
    case FragmentSpread(name, _) =>
      if name in visited || name !in fragments then Collected([], visited)
      else
        assert name in fragments.Keys - visited;
        Collect(fragments, fragments[name].selections, fragments[name].on, visited + {name})
  }

  // ----- The collected fields without an order or a visited set -----

  /** The fields of a selection list and its inline fragments. */
  function Direct(selections: seq<Selection>, parent: string): seq<Entry> {
    if selections == [] then [] else DirectOf(selections[0], parent) + Direct(selections[1..], parent)
  }

  function DirectOf(selection: Selection, parent: string): seq<Entry> {
    match selection
    case Field(_, _, _, _, _) => [Entry(selection, parent)]
    case InlineFragment(on, _, nested) => Direct(nested, TargetType(on, parent))
    case FragmentSpread(_, _) => []
  }

  /** The defined fragments spread at this level: not below a field. */
  function LevelSpreads(fragments: Fragments, selections: seq<Selection>): set<string> {
    if selections == [] then {} else LevelSpreadsOf(fragments, selections[0]) + LevelSpreads(fragments, selections[1..])
  }

  function LevelSpreadsOf(fragments: Fragments, selection: Selection): set<string> {
    match selection
    case Field(_, _, _, _, _) => {}
    case InlineFragment(_, _, nested) => LevelSpreads(fragments, nested)
    case FragmentSpread(name, _) => if name in fragments then {name} else {}
  }

  ghost predicate SpreadPath(fragments: Fragments, selections: seq<Selection>, p: seq<string>) {
    && |p| > 0
    && p[0] in LevelSpreads(fragments, selections)
    && (forall i :: 0 <= i < |p| ==> p[i] in fragments)
    && (forall i :: 0 <= i < |p| - 1 ==> p[i + 1] in LevelSpreads(fragments, fragments[p[i]].selections))
  }

  ghost predicate Reaches(fragments: Fragments, selections: seq<Selection>, name: string) {
    exists p :: SpreadPath(fragments, selections, p) && p[|p| - 1] == name
  }

  ghost function LevelReach(fragments: Fragments, selections: seq<Selection>): set<string> {
    set f | f in fragments.Keys && Reaches(fragments, selections, f)
  }

  ghost function FragmentFields(fragments: Fragments, name: string): multiset<Entry>
    requires name in fragments
  {
    multiset(Direct(fragments[name].selections, fragments[name].on))
  }

  ghost function FieldsOfAll(fragments: Fragments, names: set<string>): multiset<Entry>
    requires names <= fragments.Keys
  {
    if names == {} then multiset{}
    else var f :| f in names; FragmentFields(fragments, f) + FieldsOfAll(fragments, names - {f})
  }

  /** The occurrences of fields in a selection list, every reachable fragment
      contributing its own fields exactly once. */
  ghost function Occurrences(fragments: Fragments, selections: seq<Selection>, parent: string): multiset<Entry> {
    multiset(Direct(selections, parent)) + FieldsOfAll(fragments, LevelReach(fragments, selections))
  }

  // ----- Sums over sets of fragments -----

  lemma {:induction false} FieldsOfInsert(fragments: Fragments, names: set<string>, f: string)
    requires names <= fragments.Keys && f in names
    ensures FieldsOfAll(fragments, names) == FragmentFields(fragments, f) + FieldsOfAll(fragments, names - {f})
    decreases names
  {
    var g :| g in names
             && FieldsOfAll(fragments, names) == FragmentFields(fragments, g) + FieldsOfAll(fragments, names - {g});
    if g != f {
      FieldsOfInsert(fragments, names - {g}, f);
      FieldsOfInsert(fragments, names - {f}, g);
      assert names - {g} - {f} == names - {f} - {g};
    }
  }

  lemma SumRegroups<T>(x: multiset<T>, y: multiset<T>, z: multiset<T>)
    ensures x + (y + z) == x + y + z
  {
  }

  lemma {:induction false} FieldsOfUnion(fragments: Fragments, a: set<string>, b: set<string>)
    requires a <= fragments.Keys && b <= fragments.Keys && a !! b
    ensures FieldsOfAll(fragments, a + b) == FieldsOfAll(fragments, a) + FieldsOfAll(fragments, b)
    decreases a
  {
    if a == {} {
      assert a + b == b;
    } else {
      var f :| f in a;
      var smaller := a - {f};
      var x, y, z := FragmentFields(fragments, f), FieldsOfAll(fragments, smaller), FieldsOfAll(fragments, b);
      FieldsOfUnion(fragments, smaller, b);
      assert (a + b) - {f} == smaller + b;
      FieldsOfInsert(fragments, a + b, f);
      assert FieldsOfAll(fragments, a + b) == x + (y + z);
      FieldsOfInsert(fragments, a, f);
      SumRegroups(x, y, z);
    }
  }

  lemma FieldsOfSubset(fragments: Fragments, a: set<string>, b: set<string>)
    requires a <= b <= fragments.Keys
    ensures FieldsOfAll(fragments, a) <= FieldsOfAll(fragments, b)
  {
    FieldsOfUnion(fragments, a, b - a);
    assert a + (b - a) == b;
  }

  lemma SumOfParts(fragments: Fragments, a: set<string>, b: set<string>, c: set<string>)
    requires a <= b <= c && c - a <= fragments.Keys
    ensures FieldsOfAll(fragments, c - a) == FieldsOfAll(fragments, b - a) + FieldsOfAll(fragments, c - b)
  {
    FieldsOfUnion(fragments, b - a, c - b);
    assert (b - a) + (c - b) == c - a;
  }

  lemma MultisetOfConcat<T>(a: seq<T>, b: seq<T>)
    ensures multiset(a + b) == multiset(a) + multiset(b)
  {
  }

  // ----- Collection against the specification -----

  lemma {:induction false} CollectCounts(fragments: Fragments, selections: seq<Selection>, parent: string,
                                         visited: set<string>)
    ensures var r := Collect(fragments, selections, parent, visited);
            && r.visited - visited <= fragments.Keys
            && multiset(r.out) == multiset(Direct(selections, parent)) + FieldsOfAll(fragments, r.visited - visited)
    decreases fragments.Keys - visited, selections
  {
    if selections != [] {
      var first := CollectOne(fragments, selections[0], parent, visited);
      var rest := Collect(fragments, selections[1..], parent, first.visited);
      CollectOneCounts(fragments, selections[0], parent, visited);
      CollectCounts(fragments, selections[1..], parent, first.visited);
      SumOfParts(fragments, visited, first.visited, rest.visited);
      MultisetOfConcat(first.out, rest.out);
      MultisetOfConcat(DirectOf(selections[0], parent), Direct(selections[1..], parent));
    }
  }

  lemma {:induction false} CollectOneCounts(fragments: Fragments, selection: Selection, parent: string,
                                            visited: set<string>)
    ensures var r := CollectOne(fragments, selection, parent, visited);
            && r.visited - visited <= fragments.Keys
            && multiset(r.out) == multiset(DirectOf(selection, parent)) + FieldsOfAll(fragments, r.visited - visited)
    decreases fragments.Keys - visited, selection
  {
    match selection
    case Field(_, _, _, _, _) => assert visited - visited == {};
    case InlineFragment(on, _, nested) => CollectCounts(fragments, nested, TargetType(on, parent), visited);
    case FragmentSpread(name, _) =>
      assert visited - visited == {};
      if name !in visited && name in fragments {
        assert name in fragments.Keys - visited;
        CollectCounts(fragments, fragments[name].selections, fragments[name].on, visited + {name});
        var r := Collect(fragments, fragments[name].selections, fragments[name].on, visited + {name});
        FieldsOfInsert(fragments, r.visited - visited, name);
        assert r.visited - visited - {name} == r.visited - (visited + {name});
      }
  }

  /** Everything newly visited has its spreads visited too. */
  lemma {:induction false} CollectCloses(fragments: Fragments, selections: seq<Selection>, parent: string,
                                         visited: set<string>)
    ensures var r := Collect(fragments, selections, parent, visited);
            && LevelSpreads(fragments, selections) <= r.visited
            && forall f :: f in r.visited - visited ==>
                 f in fragments && LevelSpreads(fragments, fragments[f].selections) <= r.visited
    decreases fragments.Keys - visited, selections
  {
    if selections != [] {
      CollectOneCloses(fragments, selections[0], parent, visited);
      CollectCloses(fragments, selections[1..], parent, CollectOne(fragments, selections[0], parent, visited).visited);
    }
  }

  lemma {:induction false} CollectOneCloses(fragments: Fragments, selection: Selection, parent: string,
                                            visited: set<string>)
    ensures var r := CollectOne(fragments, selection, parent, visited);
            && LevelSpreadsOf(fragments, selection) <= r.visited
            && forall f :: f in r.visited - visited ==>
                 f in fragments && LevelSpreads(fragments, fragments[f].selections) <= r.visited
    decreases fragments.Keys - visited, selection
  {
    match selection
    case Field(_, _, _, _, _) =>
    case InlineFragment(on, _, nested) => CollectCloses(fragments, nested, TargetType(on, parent), visited);
    case FragmentSpread(name, _) =>
      if name !in visited && name in fragments {
        assert name in fragments.Keys - visited;
        CollectCloses(fragments, fragments[name].selections, fragments[name].on, visited + {name});
      }
  }

  /** Nothing is visited outside any set that is closed under spreads. */
  lemma {:induction false} CollectStaysWithin(fragments: Fragments, selections: seq<Selection>, parent: string,
                                              visited: set<string>, within: set<string>)
    requires LevelSpreads(fragments, selections) <= within
    requires forall f :: f in within && f in fragments ==> LevelSpreads(fragments, fragments[f].selections) <= within
    ensures Collect(fragments, selections, parent, visited).visited <= visited + within
    decreases fragments.Keys - visited, selections
  {
    if selections != [] {
      CollectOneStaysWithin(fragments, selections[0], parent, visited, within);
      CollectStaysWithin(fragments, selections[1..], parent,
                         CollectOne(fragments, selections[0], parent, visited).visited, within);
    }
  }

  lemma {:induction false} CollectOneStaysWithin(fragments: Fragments, selection: Selection, parent: string,
                                                 visited: set<string>, within: set<string>)
    requires LevelSpreadsOf(fragments, selection) <= within
    requires forall f :: f in within && f in fragments ==> LevelSpreads(fragments, fragments[f].selections) <= within
    ensures CollectOne(fragments, selection, parent, visited).visited <= visited + within
    decreases fragments.Keys - visited, selection
  {
    match selection
    case Field(_, _, _, _, _) =>
    case InlineFragment(on, _, nested) =>
      CollectStaysWithin(fragments, nested, TargetType(on, parent), visited, within);
    case FragmentSpread(name, _) =>
      if name !in visited && name in fragments {
        assert name in fragments.Keys - visited;
        assert name in within;
        CollectStaysWithin(fragments, fragments[name].selections, fragments[name].on, visited + {name}, within);
      }
  }

  lemma {:induction false} LevelSpreadsAreDefined(fragments: Fragments, selections: seq<Selection>)
    ensures LevelSpreads(fragments, selections) <= fragments.Keys
  {
    if selections != [] {
      LevelSpreadsAreDefined(fragments, selections[1..]);
      match selections[0]
      case InlineFragment(_, _, nested) => LevelSpreadsAreDefined(fragments, nested);
      case _ =>
    }
  }

  lemma {:induction false} PathsStayInClosedSets(fragments: Fragments, selections: seq<Selection>, p: seq<string>,
                                                 closed: set<string>)
    requires SpreadPath(fragments, selections, p)
    requires LevelSpreads(fragments, selections) <= closed
    requires forall f :: f in closed && f in fragments ==> LevelSpreads(fragments, fragments[f].selections) <= closed
    ensures p[|p| - 1] in closed
    decreases |p|
  {
    if |p| > 1 {
      PathsStayInClosedSets(fragments, selections, p[..|p| - 1], closed);
    }
  }

  /** The reachable fragments are the least set closed under spreads. */
  lemma LevelReachIsClosed(fragments: Fragments, selections: seq<Selection>)
    ensures LevelSpreads(fragments, selections) <= LevelReach(fragments, selections)
    ensures forall f :: f in LevelReach(fragments, selections) ==>
              LevelSpreads(fragments, fragments[f].selections) <= LevelReach(fragments, selections)
  {
    LevelSpreadsAreDefined(fragments, selections);
    forall f | f in LevelSpreads(fragments, selections) ensures f in LevelReach(fragments, selections) {
      assert SpreadPath(fragments, selections, [f]) && [f][|[f]| - 1] == f;
    }
    forall f, g | f in LevelReach(fragments, selections) && g in LevelSpreads(fragments, fragments[f].selections)
      ensures g in LevelReach(fragments, selections)
    {
      LevelSpreadsAreDefined(fragments, fragments[f].selections);
      var p :| SpreadPath(fragments, selections, p) && p[|p| - 1] == f;
      var q := p + [g];
      assert SpreadPath(fragments, selections, q) && q[|q| - 1] == g;
    }
  }

  lemma LevelReachIsLeast(fragments: Fragments, selections: seq<Selection>, closed: set<string>)
    requires LevelSpreads(fragments, selections) <= closed
    requires forall f :: f in closed && f in fragments ==> LevelSpreads(fragments, fragments[f].selections) <= closed
    ensures LevelReach(fragments, selections) <= closed
  {
    forall f | f in LevelReach(fragments, selections) ensures f in closed {
      var p :| SpreadPath(fragments, selections, p) && p[|p| - 1] == f;
      PathsStayInClosedSets(fragments, selections, p, closed);
    }
  }

  /** A collection from scratch visits exactly the reachable fragments and
      yields exactly the occurrences, whatever the order of the spreads. */
  lemma CollectIsExact(fragments: Fragments, selections: seq<Selection>, parent: string)
    ensures Collect(fragments, selections, parent, {}).visited == LevelReach(fragments, selections)
    ensures multiset(Collect(fragments, selections, parent, {}).out) == Occurrences(fragments, selections, parent)
  {
    var r := Collect(fragments, selections, parent, {});
    CollectCounts(fragments, selections, parent, {});
    CollectCloses(fragments, selections, parent, {});
    assert r.visited - {} == r.visited;
    LevelReachIsLeast(fragments, selections, r.visited);
    LevelReachIsClosed(fragments, selections);
    CollectStaysWithin(fragments, selections, parent, {}, LevelReach(fragments, selections));
  }
}
