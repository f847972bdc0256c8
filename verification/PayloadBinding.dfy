/**
 Binding variable names to definition indexes in place, in a payload's own tree
 of nodes.
 */
module PayloadBinding {
  import opened Values
  import opened VariableSlots

  datatype Shape = UndefNode | ScalarNode | VariableNode | ListNode | ObjectNode

  class PayloadNode {
    const shape: Shape
    const scalar: Value
    const name: string
    var index: int
    const items: seq<PayloadNode>
    const entries: map<string, PayloadNode>
    ghost const Repr: set<PayloadNode>

    /** The nodes below are separate trees. */
    ghost predicate Valid()
      decreases Repr
    {
      && this in Repr
      && (forall i :: 0 <= i < |items| ==> items[i].Repr <= Repr - {this} && items[i].Valid())
      && (forall i, j :: 0 <= i < j < |items| ==> items[i].Repr !! items[j].Repr)
      && (forall k :: k in entries ==> entries[k].Repr <= Repr - {this} && entries[k].Valid())
      && (forall k, l :: k in entries && l in entries && k != l ==> entries[k].Repr !! entries[l].Repr)
    }

    ghost function Meaning(): Dynamic
      requires Valid()
      reads Repr
      decreases Repr
    {
      match shape
      case UndefNode => DUndef
      case ScalarNode => DScalar(scalar)
      case VariableNode => DVariable(name, index)
      case ListNode => DList(seq(|items|, i requires 0 <= i < |items| && Valid() reads Repr => items[i].Meaning()))
      case ObjectNode => DObject(map k | k in entries :: entries[k].Meaning())
    }

    /** A node over trees that share no node. */
    constructor (shape: Shape, scalar: Value, name: string, index: int, items: seq<PayloadNode>,
                 entries: map<string, PayloadNode>)
      requires forall i :: 0 <= i < |items| ==> items[i].Valid()
      requires forall i, j :: 0 <= i < j < |items| ==> items[i].Repr !! items[j].Repr
      requires forall k :: k in entries ==> entries[k].Valid()
      requires forall k, l :: k in entries && l in entries && k != l ==> entries[k].Repr !! entries[l].Repr
      ensures Valid() && this.shape == shape && this.scalar == scalar && this.name == name && this.index == index
      ensures this.items == items && this.entries == entries
    {
      this.shape, this.scalar, this.name, this.index := shape, scalar, name, index;
      this.items, this.entries := items, entries;
      Repr := {this} + (set i, n | 0 <= i < |items| && n in items[i].Repr :: n)
              + (set k, n | k in entries && n in entries[k].Repr :: n);
    }

    /** Writes the index of every reference in the tree; nothing else changes. */
    method BindVariables(defs: seq<VariableDef>)
      requires Valid()
      modifies Repr`index
      ensures Meaning() == Bind(old(Meaning()), defs)
      decreases Repr
    {
      match shape
      case VariableNode =>
        index := -1;
        for i := 0 to |defs|
          invariant index == -1 && forall j :: 0 <= j < i ==> defs[j].name != name
        {
          if defs[i].name == name {
            FirstIndex(defs, name, i);
            index := i;
            return;
          }
        }
      case ListNode => BindItems(defs);
      case ObjectNode => BindEntries(defs);
      case _ =>
    }

    method BindItems(defs: seq<VariableDef>)
      requires Valid() && shape == ListNode
      modifies Repr`index
      ensures Meaning() == Bind(old(Meaning()), defs)
      decreases Repr, 0
    {
      for i := 0 to |items|
        invariant forall j :: 0 <= j < i ==> items[j].Meaning() == Bind(old(items[j].Meaning()), defs)
        invariant forall j :: i <= j < |items| ==> items[j].Meaning() == old(items[j].Meaning())
      {
        items[i].BindVariables(defs);
      }
    }

    /** Binds the entries in any order. */
    method BindEntries(defs: seq<VariableDef>)
      requires Valid() && shape == ObjectNode
      modifies Repr`index
      ensures Meaning() == Bind(old(Meaning()), defs)
      decreases Repr, 1
    {
      ghost var before := EntryMeanings();
      NoneBound(before, defs);
      var keys := entries.Keys;
      while keys != {}
        invariant keys <= before.Keys == entries.Keys && EntryMeanings() == BoundOutside(before, keys, defs)
        decreases keys
      {
        var key :| key in keys;
        OneBound(before, keys, key, defs);
        BindEntry(defs, key);
        keys := keys - {key};
      }
      AllBound(before, defs);
    }

    ghost function EntryMeanings(): (r: map<string, Dynamic>)
      requires Valid()
      reads Repr
      ensures shape == ObjectNode ==> Meaning() == DObject(r)
      ensures r.Keys == entries.Keys
    {
      map k | k in entries :: entries[k].Meaning()
    }

    method BindEntry(defs: seq<VariableDef>, key: string)
      requires Valid() && key in entries
      modifies entries[key].Repr`index
      ensures EntryMeanings() == old(EntryMeanings())[key := Bind(old(EntryMeanings())[key], defs)]
      decreases Repr, 0
    {
      entries[key].BindVariables(defs);
    }
  }

  /** Object entries of which all but `keys` are bound. */
  ghost function BoundOutside(entries: map<string, Dynamic>, keys: set<string>,
                              defs: seq<VariableDef>): (r: map<string, Dynamic>)
    ensures r.Keys == entries.Keys
  {
    map k | k in entries :: if k in keys then entries[k] else Bind(entries[k], defs)
  }

  lemma NoneBound(entries: map<string, Dynamic>, defs: seq<VariableDef>)
    ensures BoundOutside(entries, entries.Keys, defs) == entries
  {
  }

  lemma OneBound(entries: map<string, Dynamic>, keys: set<string>, key: string, defs: seq<VariableDef>)
    requires key in keys && keys <= entries.Keys
    ensures var bound := BoundOutside(entries, keys, defs);
            BoundOutside(entries, keys - {key}, defs) == bound[key := Bind(bound[key], defs)]
  {
  }

  lemma AllBound(entries: map<string, Dynamic>, defs: seq<VariableDef>)
    ensures DObject(BoundOutside(entries, {}, defs)) == Bind(DObject(entries), defs)
  {
  }

  lemma {:induction false} FirstIndex(defs: seq<VariableDef>, name: string, i: nat)
    requires i < |defs| && defs[i].name == name && forall j :: 0 <= j < i ==> defs[j].name != name
    ensures IndexOf(defs, name) == i
  {
    if i > 0 {
      assert defs[0].name != name;
      FirstIndex(defs[1..], name, i - 1);
    }
  }
}
