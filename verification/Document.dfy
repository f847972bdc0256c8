/**
 The canonical syntax tree of an executable document, as far as validation,
 costing and parsing read it.
 */
module Document {
  import opened Values

  datatype Directive = Directive(name: string, arguments: Option<map<string, Value>>)

  datatype Selection =
    | Field(alias: Option<string>, name: string, arguments: Option<map<string, Value>>,
            directives: seq<Directive>, sub: SubSelections)
    | InlineFragment(on: Option<string>, directives: seq<Directive>, selections: seq<Selection>)
    | FragmentSpread(name: string, directives: seq<Directive>)

  /** A field either has no selection set or has one, possibly empty. */
  datatype SubSelections = Absent | Present(selections: seq<Selection>)

  datatype Fragment = Fragment(on: string, selections: seq<Selection>)

  /** Fragment definitions by name; a later definition replaces an earlier one. */
  type Fragments = map<string, Fragment>

  /** The fragment names spread anywhere in a selection list, in order. */
  function Spreads(selections: seq<Selection>): seq<string> {
    if selections == [] then [] else SpreadsIn(selections[0]) + Spreads(selections[1..])
  }

  function SpreadsIn(selection: Selection): seq<string> {
    match selection
    case Field(_, _, _, _, Absent) => []
    case Field(_, _, _, _, Present(nested)) => Spreads(nested)
    case InlineFragment(_, _, nested) => Spreads(nested)
    case FragmentSpread(name, _) => [name]
  }

  lemma {:induction false} SpreadsTake(selections: seq<Selection>, i: nat)
    requires i < |selections|
    ensures Spreads(selections[..i + 1]) == Spreads(selections[..i]) + SpreadsIn(selections[i])
  {
    if i == 0 {
      assert selections[..1][1..] == [];
    } else {
      assert selections[..i + 1][1..] == selections[1..][..i];
      assert selections[..i][1..] == selections[1..][..i - 1];
      SpreadsTake(selections[1..], i - 1);
    }
  }

  /** The enumeration of a finite set, used where the program sorts hash keys. */
  ghost function Enumerate<T(!new)>(s: set<T>): (keys: seq<T>)
    ensures forall x :: x in keys <==> x in s
  {
    if s == {} then [] else var x :| x in s; [x] + Enumerate(s - {x})
  }
}
