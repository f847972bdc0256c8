/**
 Query cost: the exact cost of a selection list over unbounded integers, the
 saturating computation over machine words, and the effect of fragments.
 */
module QueryCost {
  import opened Values
  import opened Schema
  import opened Document
  import FragmentCycles

  /** An unsigned machine word; arithmetic on it is checked not to wrap. */
  newtype UV = x: int | 0 <= x < 0x1_0000_0000_0000_0000

  /** The largest value of a signed machine word, in which options and schema
      annotations are given. */
  const IV_MAX: nat := 0x7fff_ffff_ffff_ffff

  function IsList(t: TypeRef): bool {
    match t
    case ListOf(_) => true
    case NonNull(of) => IsList(of)
    case Named(_) => false
  }

  function FieldOf(s: CompiledSchema, parent: string, name: string): Option<FieldDef> {
    if parent in s.types && name in s.types[parent].fields then Some(s.types[parent].fields[name]) else None
  }

  /** The compiler admits only costs of at least 0 and list sizes of at least 1. */
  ghost predicate CostsCompiled(s: CompiledSchema) {
    forall parent, name :: FieldOf(s, parent, name).Some? ==>
      && (FieldOf(s, parent, name).value.cost.Some? ==> FieldOf(s, parent, name).value.cost.value <= IV_MAX)
      && (FieldOf(s, parent, name).value.listSize.Some? ==>
            1 <= FieldOf(s, parent, name).value.listSize.value <= IV_MAX)
  }

  function OrElse<T>(o: Option<T>, default: T): T {
    if o.Some? then o.value else default
  }

  // ----- The exact cost -----

  function Times(a: nat, b: nat): nat {
    a * b
  }

  /** The cost of one field whose selections cost `child`: its own cost plus its
      selections once per estimated item, a list of leaves counting its items. */
  function FieldCost(def: Option<FieldDef>, child: nat, defaultListSize: nat): nat {
    match def
    case None => 1
    case Some(d) =>
      if IsList(d.typ)
      then OrElse(d.cost, 1) + Times(OrElse(d.listSize, defaultListSize), if child == 0 then 1 else child)
      else OrElse(d.cost, 1) + child
  }

  /** The unbounded cost. A fragment is not entered again below itself. */
  function Cost(s: CompiledSchema, fragments: Fragments, selections: seq<Selection>, parent: string,
                visited: set<string>, defaultListSize: nat): nat
    decreases fragments.Keys - visited, selections
  {
    if selections == [] then 0
    else CostOf(s, fragments, selections[0], parent, visited, defaultListSize)
         + Cost(s, fragments, selections[1..], parent, visited, defaultListSize)
  }

  function CostOf(s: CompiledSchema, fragments: Fragments, selection: Selection, parent: string,
                  visited: set<string>, defaultListSize: nat): nat
    decreases fragments.Keys - visited, selection
  {
    match selection
    case Field(_, name, _, _, sub) =>
      var def := FieldOf(s, parent, name);
      var child := match sub
        case Absent => 0
        case Present(nested) =>
          if def.Some? then Cost(s, fragments, nested, NamedType(def.value.typ), visited, defaultListSize) else 0;
      FieldCost(def, child, defaultListSize)
    case InlineFragment(on, _, nested) =>
      Cost(s, fragments, nested, OrElse(on, parent), visited, defaultListSize)
    case FragmentSpread(name, _) =>
      if name in visited || name !in fragments then 0
      else
        assert name in fragments.Keys - visited;
        Cost(s, fragments, fragments[name].selections, fragments[name].on, visited + {name}, defaultListSize)
  }

  lemma {:induction false} CostSplits(s: CompiledSchema, fragments: Fragments, selections: seq<Selection>,
                                      parent: string, visited: set<string>, defaultListSize: nat, i: nat)
    requires i < |selections|
    ensures Cost(s, fragments, selections[..i + 1], parent, visited, defaultListSize)
            == Cost(s, fragments, selections[..i], parent, visited, defaultListSize)
               + CostOf(s, fragments, selections[i], parent, visited, defaultListSize)
    ensures Cost(s, fragments, selections[..i + 1], parent, visited, defaultListSize)
            <= Cost(s, fragments, selections, parent, visited, defaultListSize)
    decreases |selections|
  {
    if i == 0 {
      assert selections[..1][1..] == [];
    } else {
      assert selections[..i + 1][1..] == selections[1..][..i];
      assert selections[..i][1..] == selections[1..][..i - 1];
      CostSplits(s, fragments, selections[1..], parent, visited, defaultListSize, i - 1);
    }
  }

  // ----- What single selections cost -----

  /** The cost of a selection set below a field of the given type. */
  function CostBelow(s: CompiledSchema, fragments: Fragments, sub: SubSelections, typ: string, visited: set<string>,
                     defaultListSize: nat): nat {
    match sub
    case Absent => 0
    case Present(nested) => Cost(s, fragments, nested, typ, visited, defaultListSize)
  }

  lemma OneFieldCosts(s: CompiledSchema, fragments: Fragments, field: Selection, parent: string, visited: set<string>,
                      defaultListSize: nat)
    requires field.Field? && parent in s.types && field.name in s.types[parent].fields
    ensures var def := s.types[parent].fields[field.name];
            Cost(s, fragments, [field], parent, visited, defaultListSize)
            == FieldCost(Some(def), CostBelow(s, fragments, field.sub, NamedType(def.typ), visited, defaultListSize),
                         defaultListSize)
  {
    assert [field][1..] == [];
    assert Cost(s, fragments, [], parent, visited, defaultListSize) == 0;
  }

  /** A field of a plain type, null or not, costs what it is annotated with, or 1, and
      what is below it. */
  lemma PlainFieldCosts(s: CompiledSchema, fragments: Fragments, field: Selection, parent: string, typ: string,
                        visited: set<string>, defaultListSize: nat)
    requires field.Field? && parent in s.types && field.name in s.types[parent].fields
    requires s.types[parent].fields[field.name].typ in {Named(typ), NonNull(Named(typ))}
    ensures var def := s.types[parent].fields[field.name];
            Cost(s, fragments, [field], parent, visited, defaultListSize)
            == (if def.cost.Some? then def.cost.value else 1)
               + CostBelow(s, fragments, field.sub, typ, visited, defaultListSize)
  {
    var def := s.types[parent].fields[field.name];
    assert !IsList(def.typ) && NamedType(def.typ) == typ;
    OneFieldCosts(s, fragments, field, parent, visited, defaultListSize);
  }

  /** A field of a list type, null or not, costs that once and for each estimated item
      the larger of 1 and what is below it. The schema's estimate comes before the default. */
  lemma ListFieldCosts(s: CompiledSchema, fragments: Fragments, field: Selection, parent: string, of: TypeRef,
                       visited: set<string>, defaultListSize: nat)
    requires field.Field? && parent in s.types && field.name in s.types[parent].fields
    requires s.types[parent].fields[field.name].typ in {ListOf(of), NonNull(ListOf(of))}
    ensures var def := s.types[parent].fields[field.name];
            var below := CostBelow(s, fragments, field.sub, NamedType(of), visited, defaultListSize);
            Cost(s, fragments, [field], parent, visited, defaultListSize)
            == (if def.cost.Some? then def.cost.value else 1)
               + (if def.listSize.Some? then def.listSize.value else defaultListSize) * (if below < 1 then 1 else below)
  {
    var def := s.types[parent].fields[field.name];
    if def.typ.NonNull? {
      assert NamedType(ListOf(of)) == NamedType(of);
    }
    assert IsList(def.typ);
    OneFieldCosts(s, fragments, field, parent, visited, defaultListSize);
  }

  /** An undeclared field costs 1 with whatever is below it; an inline fragment costs
      what is in it, on its type or else the parent's; a spread fragment what is in it,
      on its type, and nothing below itself or when it is unknown. */
  lemma OtherSelectionsCost(s: CompiledSchema, fragments: Fragments, field: Selection, ds: seq<Directive>,
                            nested: seq<Selection>, name: string, typ: string, parent: string, visited: set<string>,
                            defaultListSize: nat)
    requires field.Field? && (parent in s.types ==> field.name !in s.types[parent].fields)
    ensures Cost(s, fragments, [field], parent, visited, defaultListSize) == 1
    ensures Cost(s, fragments, [InlineFragment(Some(typ), ds, nested)], parent, visited, defaultListSize)
            == Cost(s, fragments, nested, typ, visited, defaultListSize)
    ensures Cost(s, fragments, [InlineFragment(None, ds, nested)], parent, visited, defaultListSize)
            == Cost(s, fragments, nested, parent, visited, defaultListSize)
    ensures name in fragments && name !in visited ==>
              Cost(s, fragments, [FragmentSpread(name, ds)], parent, visited, defaultListSize)
              == Cost(s, fragments, fragments[name].selections, fragments[name].on, visited + {name}, defaultListSize)
    ensures name !in fragments || name in visited ==>
              Cost(s, fragments, [FragmentSpread(name, ds)], parent, visited, defaultListSize) == 0
  {
    var untyped, typed := InlineFragment(None, ds, nested), InlineFragment(Some(typ), ds, nested);
    assert [field][1..] == [] && [untyped][1..] == [] && [typed][1..] == [];
    assert [FragmentSpread(name, ds)][1..] == [];
  }

  /** The types of two fields are one, or one of them is the other made non-null. */
  predicate SameButForNull(t: TypeRef, u: TypeRef) {
    t == u || t == NonNull(u) || u == NonNull(t)
  }

  /** Two schemas differ only in which fields are non-null. */
  ghost predicate DifferInNullOnly(s: CompiledSchema, s': CompiledSchema) {
    && s.types.Keys == s'.types.Keys
    && forall t :: t in s.types ==>
         && s.types[t].fields.Keys == s'.types[t].fields.Keys
         && forall f :: f in s.types[t].fields ==>
              && SameButForNull(s.types[t].fields[f].typ, s'.types[t].fields[f].typ)
              && s.types[t].fields[f].cost == s'.types[t].fields[f].cost
              && s.types[t].fields[f].listSize == s'.types[t].fields[f].listSize
  }

  /** Making fields non-null, or nullable again, changes no cost. */
  lemma {:induction false} NullsCostNothing(s: CompiledSchema, s': CompiledSchema, fragments: Fragments,
                                            selections: seq<Selection>, parent: string, visited: set<string>,
                                            defaultListSize: nat)
    requires DifferInNullOnly(s, s')
    ensures Cost(s, fragments, selections, parent, visited, defaultListSize)
            == Cost(s', fragments, selections, parent, visited, defaultListSize)
    decreases fragments.Keys - visited, selections
  {
    if selections != [] {
      NullsCostNothing(s, s', fragments, selections[1..], parent, visited, defaultListSize);
      NullsCostNothingOf(s, s', fragments, selections[0], parent, visited, defaultListSize);
    }
  }

  lemma {:induction false} NullsCostNothingOf(s: CompiledSchema, s': CompiledSchema, fragments: Fragments,
                                              selection: Selection, parent: string, visited: set<string>,
                                              defaultListSize: nat)
    requires DifferInNullOnly(s, s')
    ensures CostOf(s, fragments, selection, parent, visited, defaultListSize)
            == CostOf(s', fragments, selection, parent, visited, defaultListSize)
    decreases fragments.Keys - visited, selection
  {
    match selection
    case Field(_, name, _, _, sub) =>
      if parent in s.types && name in s.types[parent].fields {
        var def := s.types[parent].fields[name];
        assert SameButForNull(def.typ, s'.types[parent].fields[name].typ);
        if sub.Present? {
          NullsCostNothing(s, s', fragments, sub.selections, NamedType(def.typ), visited, defaultListSize);
        }
      }
    case InlineFragment(on, _, nested) =>
      NullsCostNothing(s, s', fragments, nested, OrElse(on, parent), visited, defaultListSize);
    case FragmentSpread(name, _) =>
      if name !in visited && name in fragments {
        assert name in fragments.Keys - visited;
        NullsCostNothing(s, s', fragments, fragments[name].selections, fragments[name].on, visited + {name},
                         defaultListSize);
      }
  }

  /** `{ users { id } }` with `users: [User!]!` costs 11 when a list is taken to have
      ten items. */
  lemma UsersCostEleven(s: CompiledSchema, fragments: Fragments)
    requires "Query" in s.types && "users" in s.types["Query"].fields
    requires "User" in s.types && "id" in s.types["User"].fields
    requires s.types["Query"].fields["users"] == FieldDef(NonNull(ListOf(NonNull(Named("User")))), None, None)
    requires s.types["User"].fields["id"] == FieldDef(NonNull(Named("ID")), None, None)
    ensures Cost(s, fragments, [Field(None, "users", None, [], Present([Field(None, "id", None, [], Absent)]))],
                 "Query", {}, 10)
            == 11
  {
    var id := Field(None, "id", None, [], Absent);
    var users := Field(None, "users", None, [], Present([id]));
    PlainFieldCosts(s, fragments, id, "User", "ID", {}, 10);
    ListFieldCosts(s, fragments, users, "Query", NonNull(Named("User")), {}, 10);
  }

  // ----- The saturating computation -----

  function Min(a: nat, b: nat): nat {
    if a < b then a else b
  }

  function CostAdd(total: UV, add: UV, maxCost: UV): (r: UV)
    requires total <= maxCost && maxCost as int <= IV_MAX
    ensures r as int == Min(total as int + add as int, maxCost as int + 1)
  {
    if add > maxCost - total then maxCost + 1 else total + add
  }

  lemma MulMonotone(a: nat, b: nat, c: nat)
    requires b <= c
    ensures Times(a, b) <= Times(a, c)
  {
  }

  /** Comparing with a quotient is comparing the product. */
  lemma ProductExceeds(multiplier: nat, child: nat, room: nat)
    requires child > 0
    ensures multiplier > room / child <==> Times(multiplier, child) > room
  {
    var q := room / child;
    assert child * q <= room < child * (q + 1);
    if multiplier > q {
      MulMonotone(child, q + 1, multiplier);
    } else {
      MulMonotone(child, multiplier, q);
    }
  }

  /** A field's product saturates when its exact product is over the budget, and
      is exact otherwise, although the child cost may itself be saturated. */
  lemma SaturatedProduct(total: nat, multiplier: nat, child: nat, exactChild: nat, maxCost: nat)
    requires total <= maxCost && multiplier >= 1 && child > 0
    requires child == Min(exactChild, maxCost + 1) || child == exactChild
    ensures multiplier > (maxCost - total) / child ==> total + Times(multiplier, exactChild) > maxCost
    ensures multiplier <= (maxCost - total) / child ==>
              child == exactChild && total + Times(multiplier, child) <= maxCost
  {
    ProductExceeds(multiplier, child, maxCost - total);
    MulMonotone(multiplier, child, exactChild);
    MulMonotone(child, 1, multiplier);
  }

  class CostMeter {
    const schema: CompiledSchema
    const fragments: Fragments
    const defaultListSize: UV
    const maxCost: UV
    var visited: set<string>

    constructor (schema: CompiledSchema, fragments: Fragments, defaultListSize: UV, maxCost: UV)
      ensures this.schema == schema && this.fragments == fragments
      ensures this.defaultListSize == defaultListSize && this.maxCost == maxCost && visited == {}
    {
      this.schema, this.fragments := schema, fragments;
      this.defaultListSize, this.maxCost := defaultListSize, maxCost;
      visited := {};
    }

    ghost predicate Valid() {
      CostsCompiled(schema) && 1 <= defaultListSize as int <= IV_MAX && maxCost as int <= IV_MAX
    }

    ghost function Exact(selections: seq<Selection>, parent: string, seen: set<string>): nat {
      Cost(schema, fragments, selections, parent, seen, defaultListSize as int)
    }

    ghost function Saturated(cost: nat): nat {
      Min(cost, maxCost as int + 1)
    }

    /** The cost of a selection list, saturated one above the budget; the set of
        fragments being expanded is as before on every exit. */
    method SelectionCost(selections: seq<Selection>, parent: string) returns (total: UV)
      requires Valid()
      modifies this
      ensures total as int == Saturated(Exact(selections, parent, old(visited)))
      ensures visited == old(visited)
      decreases fragments.Keys - visited, selections, 1
    {
      total := 0;
      var i := 0;
      while i < |selections|
        invariant 0 <= i <= |selections| && visited == old(visited)
        invariant total <= maxCost && total as int == Exact(selections[..i], parent, visited)
      {
        CostSplits(schema, fragments, selections, parent, visited, defaultListSize as int, i);
        total := AddSelection(total, selections[i], parent);
        if total > maxCost {
          return;
        }
        i := i + 1;
      }
      assert selections[..i] == selections;
    }

    /** Adds the cost of one selection to a running total within the budget. */
    method AddSelection(total: UV, selection: Selection, parent: string) returns (r: UV)
      requires Valid() && total <= maxCost
      modifies this
      ensures r as int
              == Saturated(total as int
                           + CostOf(schema, fragments, selection, parent, old(visited), defaultListSize as int))
      ensures visited == old(visited)
      decreases fragments.Keys - visited, selection, 0
    {
      r := total;
      match selection {
        case Field(_, name, _, _, sub) =>
          r := AddField(total, name, sub, parent, selection);
        case InlineFragment(on, _, nested) =>
          var cost := SelectionCost(nested, OrElse(on, parent));
          r := CostAdd(total, cost, maxCost);
        case FragmentSpread(name, _) =>
          if name !in visited && name in fragments {
            assert name in fragments.Keys - visited;
            visited := visited + {name};
            var cost := SelectionCost(fragments[name].selections, fragments[name].on);
            r := CostAdd(total, cost, maxCost);
            visited := visited - {name};
          }
      }
    }

    method AddField(total: UV, name: string, sub: SubSelections, parent: string, ghost selection: Selection)
      returns (r: UV)
      requires Valid() && total <= maxCost
      requires selection.Field? && selection.name == name && selection.sub == sub
      modifies this
      ensures r as int
              == Saturated(total as int
                           + CostOf(schema, fragments, selection, parent, old(visited), defaultListSize as int))
      ensures visited == old(visited)
      decreases fragments.Keys - visited, sub, 0
    {
      var own: UV, multiplier: UV, child: UV, isList := 1, 1, 0, false;
      var def := FieldOf(schema, parent, name);
      ghost var exactChild: nat := 0;
      if def.Some? {
        if def.value.cost.Some? {
          own := def.value.cost.value as UV;
        }
        if IsList(def.value.typ) {
          multiplier := if def.value.listSize.Some? then def.value.listSize.value as UV else defaultListSize;
          isList := true;
        }
        if sub.Present? {
          child := SelectionCost(sub.selections, NamedType(def.value.typ));
          exactChild := Exact(sub.selections, NamedType(def.value.typ), visited);
        }
      }
      assert CostOf(schema, fragments, selection, parent, visited, defaultListSize as int)
             == FieldCost(def, exactChild, defaultListSize as int);
      if isList && child == 0 {
        child, exactChild := 1, 1;
      }
      r := AddProduct(total, own, multiplier, child, exactChild);
    }

    method AddProduct(total: UV, own: UV, multiplier: UV, child: UV, ghost exactChild: nat) returns (r: UV)
      requires Valid() && total <= maxCost && multiplier >= 1
      requires child as int == Saturated(exactChild) || child as int == exactChild == 1
      ensures r as int == Saturated(total as int + own as int + Times(multiplier as int, exactChild))
    {
      r := CostAdd(total, own, maxCost);
      MulMonotone(multiplier as int, 0, exactChild);
      if r > maxCost || child == 0 {
        return;
      }
      SaturatedProduct(r as int, multiplier as int, child as int, exactChild, maxCost as int);
      if multiplier > (maxCost - r) / child {
        return maxCost + 1;
      }
      r := r + multiplier * child;
    }
  }

  // ----- The budget check over a document's operations -----

  /** An operation, with the root type its kind has in the schema. */
  datatype Operation = Operation(name: Option<string>, root: Option<string>, sub: SubSelections)

  predicate Selected(op: Operation, wanted: Option<string>) {
    && (wanted.Some? ==> op.name == wanted)
    && op.root.Some? && op.sub.Present?
  }

  /** Reports, in order, the selected operations whose exact cost is over the budget. */
  method CheckCost(schema: CompiledSchema, fragments: Fragments, operations: seq<Operation>, wanted: Option<string>,
                   defaultListSize: UV, maxCost: UV) returns (over: seq<nat>)
    requires forall t, f :: t in schema.types && f in schema.types[t].fields ==>
               && (schema.types[t].fields[f].cost.Some? ==>
                     schema.types[t].fields[f].cost.value <= 0x7fff_ffff_ffff_ffff)
               && (schema.types[t].fields[f].listSize.Some? ==>
                     1 <= schema.types[t].fields[f].listSize.value <= 0x7fff_ffff_ffff_ffff)
    requires 1 <= defaultListSize as int <= 0x7fff_ffff_ffff_ffff && maxCost as int <= 0x7fff_ffff_ffff_ffff
    ensures forall k :: k in over <==>
              && 0 <= k < |operations| && (wanted.None? || operations[k].name == wanted)
              && operations[k].root.Some? && operations[k].sub.Present?
              && Cost(schema, fragments, operations[k].sub.selections, operations[k].root.value, {},
                      defaultListSize as int)
                 > maxCost as int
    ensures forall i, j :: 0 <= i < j < |over| ==> over[i] < over[j]
  {
    over := [];
    for k := 0 to |operations|
      invariant forall i :: i in over <==>
              && 0 <= i < k && Selected(operations[i], wanted)
              && Cost(schema, fragments, operations[i].sub.selections, operations[i].root.value, {},
                      defaultListSize as int)
                 > maxCost as int
      invariant forall i, j :: 0 <= i < j < |over| ==> over[i] < over[j]
    {
      if Selected(operations[k], wanted) {
        var meter := new CostMeter(schema, fragments, defaultListSize, maxCost);
        var cost := meter.SelectionCost(operations[k].sub.selections, operations[k].root.value);
        if cost > maxCost {
          assert forall j :: 0 <= j < |over| ==> over[j] in over && over[j] < k;
          over := over + [k];
        }
      }
    }
  }

  // ----- Fragments as inline fragments -----

  /** `ys` is `xs` with every spread of a defined fragment replaced by an inline
      fragment on its type with its body, itself so replaced. */
  ghost predicate InlinesTo(fragments: Fragments, xs: seq<Selection>, ys: seq<Selection>)
    decreases ys
  {
    |xs| == |ys| && forall i :: 0 <= i < |ys| ==> InlinesToOne(fragments, xs[i], ys[i])
  }

  ghost predicate InlinesToOne(fragments: Fragments, x: Selection, y: Selection)
    decreases y
  {
    match x
    case Field(_, _, _, _, Absent) => y == x
    case Field(alias, name, arguments, directives, Present(nested)) =>
      (match y
       case Field(_, _, _, _, Present(nested')) =>
         y == Field(alias, name, arguments, directives, Present(nested')) && InlinesTo(fragments, nested, nested')
       case _ => false)
    case InlineFragment(on, directives, nested) =>
      (match y
       case InlineFragment(_, _, nested') =>
         y == InlineFragment(on, directives, nested') && InlinesTo(fragments, nested, nested')
       case _ => false)
    case FragmentSpread(name, directives) =>
      if name in fragments then
        (match y
         case InlineFragment(_, _, nested') =>
           && y == InlineFragment(Some(fragments[name].on), directives, nested')
           && InlinesTo(fragments, fragments[name].selections, nested')
         case _ => false)
      else y == x
  }

  /** An inlining has the cost of the original as long as no fragment being
      expanded is spread again; `order` bounds the fragments still to come. */
  lemma {:induction false} InliningCost(s: CompiledSchema, fragments: Fragments, xs: seq<Selection>, ys: seq<Selection>,
                                        parent: string, seen: set<string>, seen': set<string>, size: nat,
                                        order: seq<string>)
    requires InlinesTo(fragments, xs, ys) && FragmentCycles.FinishingOrder(fragments, order, [])
    requires forall f :: f in Spreads(xs) && f in fragments ==> f in order
    requires forall f :: f in order ==> f !in seen
    ensures Cost(s, fragments, xs, parent, seen, size) == Cost(s, fragments, ys, parent, seen', size)
    decreases ys, 1
  {
    if ys != [] {
      assert Spreads(xs) == SpreadsIn(xs[0]) + Spreads(xs[1..]);
      assert InlinesToOne(fragments, xs[0], ys[0]);
      InliningCostOne(s, fragments, xs[0], ys[0], parent, seen, seen', size, order);
      forall i | 0 <= i < |ys[1..]| ensures InlinesToOne(fragments, xs[1..][i], ys[1..][i]) {
        assert InlinesToOne(fragments, xs[i + 1], ys[i + 1]);
      }
      InliningCost(s, fragments, xs[1..], ys[1..], parent, seen, seen', size, order);
    }
  }

  lemma {:induction false} InliningCostOne(s: CompiledSchema, fragments: Fragments, x: Selection, y: Selection,
                                           parent: string, seen: set<string>, seen': set<string>, size: nat,
                                           order: seq<string>)
    requires InlinesToOne(fragments, x, y) && FragmentCycles.FinishingOrder(fragments, order, [])
    requires forall f :: f in SpreadsIn(x) && f in fragments ==> f in order
    requires forall f :: f in order ==> f !in seen
    ensures CostOf(s, fragments, x, parent, seen, size) == CostOf(s, fragments, y, parent, seen', size)
    decreases y, 0
  {
    match x
    case Field(_, name, _, _, Present(nested)) =>
      var def := FieldOf(s, parent, name);
      if def.Some? {
        InliningCost(s, fragments, nested, y.sub.selections, NamedType(def.value.typ), seen, seen', size, order);
      }
    case Field(_, _, _, _, Absent) =>
    case InlineFragment(on, _, nested) =>
      InliningCost(s, fragments, nested, y.selections, OrElse(on, parent), seen, seen', size, order);
    case FragmentSpread(name, _) =>
      if name in fragments {
        assert name in SpreadsIn(x);
        var k := FragmentCycles.FirstIndex(order, name);
        var body, earlier := fragments[name].selections, order[..k];
        EarlierOrder(fragments, order, k);
        InliningCost(s, fragments, body, y.selections, fragments[name].on, seen + {name}, seen', size, earlier);
      }
  }

  /** In an acyclic document, inlining every fragment leaves the cost unchanged:
      the set of fragments being expanded never cuts a spread off. */
  lemma InliningKeepsCost(s: CompiledSchema, fragments: Fragments, xs: seq<Selection>, ys: seq<Selection>,
                          parent: string, size: nat)
    requires FragmentCycles.Acyclic(fragments) && InlinesTo(fragments, xs, ys)
    ensures Cost(s, fragments, xs, parent, {}, size) == Cost(s, map[], ys, parent, {}, size)
  {
    var order := FragmentCycles.AcyclicHasOrder(fragments);
    InliningCost(s, fragments, xs, ys, parent, {}, {}, size, order);
    InlinedIgnoresFragments(s, fragments, xs, ys, parent, size);
  }

  /** No spread of a defined fragment is left in an inlining. */
  lemma {:induction false} InlinedIgnoresFragments(s: CompiledSchema, fragments: Fragments, xs: seq<Selection>,
                                                   ys: seq<Selection>, parent: string, size: nat)
    requires InlinesTo(fragments, xs, ys)
    ensures Cost(s, fragments, ys, parent, {}, size) == Cost(s, map[], ys, parent, {}, size)
    decreases ys
  {
    if ys != [] {
      var x, y := xs[0], ys[0];
      assert InlinesToOne(fragments, x, y);
      match y {
        case Field(_, name, _, _, Present(nested)) =>
          var def := FieldOf(s, parent, name);
          if def.Some? {
            InlinedIgnoresFragments(s, fragments, x.sub.selections, nested, NamedType(def.value.typ), size);
          }
        case Field(_, _, _, _, Absent) =>
        case InlineFragment(on, _, nested) =>
          var from := if x.InlineFragment? then x.selections else fragments[x.name].selections;
          InlinedIgnoresFragments(s, fragments, from, nested, OrElse(on, parent), size);
        case FragmentSpread(_, _) =>
      }
      forall i | 0 <= i < |ys[1..]| ensures InlinesToOne(fragments, xs[1..][i], ys[1..][i]) {
        assert InlinesToOne(fragments, xs[i + 1], ys[i + 1]);
      }
      InlinedIgnoresFragments(s, fragments, xs[1..], ys[1..], parent, size);
    }
  }

  /** Every selection list of an acyclic document has an inlining. */
  lemma {:induction false} InliningExists(fragments: Fragments, xs: seq<Selection>, order: seq<string>)
    returns (ys: seq<Selection>)
    requires FragmentCycles.FinishingOrder(fragments, order, [])
    requires forall f :: f in Spreads(xs) && f in fragments ==> f in order
    ensures InlinesTo(fragments, xs, ys)
    decreases |order|, xs
  {
    ys := [];
    if xs != [] {
      assert Spreads(xs) == SpreadsIn(xs[0]) + Spreads(xs[1..]);
      var y := xs[0];
      match xs[0] {
        case Field(alias, name, arguments, directives, Present(nested)) =>
          var zs := InliningExists(fragments, nested, order);
          y := Field(alias, name, arguments, directives, Present(zs));
        case Field(_, _, _, _, Absent) =>
        case InlineFragment(on, directives, nested) =>
          var zs := InliningExists(fragments, nested, order);
          y := InlineFragment(on, directives, zs);
        case FragmentSpread(name, directives) =>
          if name in fragments {
            assert name in SpreadsIn(xs[0]);
            var k := FragmentCycles.FirstIndex(order, name);
            EarlierOrder(fragments, order, k);
            var zs := InliningExists(fragments, fragments[name].selections, order[..k]);
            y := InlineFragment(Some(fragments[name].on), directives, zs);
          }
      }
      var rest := InliningExists(fragments, xs[1..], order);
      ys := [y] + rest;
      forall i | 0 <= i < |ys| ensures InlinesToOne(fragments, xs[i], ys[i]) {
        if i > 0 {
          assert InlinesToOne(fragments, xs[1..][i - 1], rest[i - 1]);
        }
      }
    }
  }

  lemma AcyclicDocumentsInline(fragments: Fragments, xs: seq<Selection>)
    requires FragmentCycles.Acyclic(fragments)
    ensures exists ys :: InlinesTo(fragments, xs, ys)
  {
    var order := FragmentCycles.AcyclicHasOrder(fragments);
    var ys := InliningExists(fragments, xs, order);
  }

  lemma EarlierOrder(fragments: Fragments, order: seq<string>, k: nat)
    requires FragmentCycles.FinishingOrder(fragments, order, []) && k < |order| && order[k] in fragments
    ensures FragmentCycles.FinishingOrder(fragments, order[..k], [])
    ensures forall f :: f in Spreads(fragments[order[k]].selections) && f in fragments ==> f in order[..k]
  {
    var earlier := order[..k];
    forall i, g | 0 <= i < k && FragmentCycles.Edge(fragments, earlier[i], g) ensures g in earlier[..i] {
      FragmentCycles.SpreadsEarlier(fragments, order, i, g);
      assert earlier[..i] == order[..i];
    }
    forall f | f in Spreads(fragments[order[k]].selections) && f in fragments ensures f in earlier {
      FragmentCycles.SpreadsEarlier(fragments, order, k, f);
    }
  }
}
