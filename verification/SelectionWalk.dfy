/**
 The selection walk of the validator: it merges every selection list it reaches,
 checks each selection against its parent type and goes on below. A document it
 accepts executes without ambiguity.
 */
module SelectionWalk {
  import opened Values
  import opened Schema
  import opened Document
  import opened Layering
  import opened FieldCollection
  import opened FieldMerging
  import opened FieldsByKey
  import opened MergeTermination
  import opened MergeValidation
  import opened MergedExecution

  datatype WalkError =
    | MergeConflict(of: MergeError)
    | UnknownField(field: string, parent: string)
    | SelectionOnLeaf(field: string, typ: string)
    | MissingSelection(field: string, typ: string)
    | UnknownFragment(name: string)
    | ImpossibleSpread(name: string, on: string, parent: string)
    | UnknownInlineType(on: string)
    | ImpossibleInline(on: string, parent: string)
    | UnknownFragmentType(name: string, on: string)
    | NonCompositeFragment(name: string, on: string)
    | NoRootType(operationType: string)

  predicate IsComposite(s: CompiledSchema, name: string) {
    name in s.types && (s.types[name].kind == OBJECT || IsAbstract(s, name))
  }

  /** A field every query root or every composite type has without declaring it. */
  predicate IsMeta(roots: map<string, string>, parent: string, field: string) {
    field == "__typename"
    || ((field == "__schema" || field == "__type") && "query" in roots && roots["query"] == parent)
  }

  // ----- What is accepted -----

  ghost predicate ListAccepted(s: CompiledSchema, roots: map<string, string>, fragments: Fragments,
                               selections: seq<Selection>, parent: string)
    decreases selections
  {
    parent in s.types ==>
      && Mergeable(s, fragments, selections, parent)
      && forall i :: 0 <= i < |selections| ==> SelectionAccepted(s, roots, fragments, selections[i], parent)
  }

  ghost predicate SelectionAccepted(s: CompiledSchema, roots: map<string, string>, fragments: Fragments,
                                    selection: Selection, parent: string)
    decreases selection
  {
    match selection
    case Field(_, name, _, _, sub) =>
      if FieldType(s, parent, name).None? then IsMeta(roots, parent, name)
      else
        var typ := NamedType(FieldType(s, parent, name).value);
        (match sub
         case Absent => !IsComposite(s, typ)
         case Present(nested) => !IsLeaf(s, typ) && ListAccepted(s, roots, fragments, nested, typ))
    case InlineFragment(on, _, nested) =>
      var typ := TargetType(on, parent);
      typ in s.types && TypesOverlap(s, parent, typ) && ListAccepted(s, roots, fragments, nested, typ)
    case FragmentSpread(name, _) =>
      name in fragments && (fragments[name].on in s.types ==> TypesOverlap(s, parent, fragments[name].on))
  }

  ghost predicate FragmentAccepted(s: CompiledSchema, roots: map<string, string>, fragments: Fragments, name: string)
    requires name in fragments
  {
    IsComposite(s, fragments[name].on)
    && ListAccepted(s, roots, fragments, fragments[name].selections, fragments[name].on)
  }

  ghost predicate FragmentsAccepted(s: CompiledSchema, roots: map<string, string>, fragments: Fragments) {
    forall name :: name in fragments ==> FragmentAccepted(s, roots, fragments, name)
  }

  ghost predicate OperationAccepted(s: CompiledSchema, roots: map<string, string>, fragments: Fragments,
                                    operation: Operation)
  {
    operation.typ in roots && ListAccepted(s, roots, fragments, operation.selections, roots[operation.typ])
  }

  /** An operation, its type being `query` when none is written. */
  datatype Operation = Operation(typ: string, selections: seq<Selection>)

  // ----- Where the walk ends -----

  /** Merging ends on a selection list. */
  ghost predicate MergeEnds(s: CompiledSchema, fragments: Fragments, selections: seq<Selection>, parent: string) {
    exists n :: EndsWithin(s, fragments, selections, parent, n)
  }

  /** Merging ends on every list the walk merges. */
  ghost predicate ListEnds(s: CompiledSchema, fragments: Fragments, selections: seq<Selection>, parent: string)
    decreases selections
  {
    parent in s.types ==>
      && MergeEnds(s, fragments, selections, parent)
      && forall i :: 0 <= i < |selections| ==> SelectionEnds(s, fragments, selections[i], parent)
  }

  ghost predicate SelectionEnds(s: CompiledSchema, fragments: Fragments, selection: Selection, parent: string)
    decreases selection
  {
    match selection
    case Field(_, name, _, _, Present(nested)) =>
      FieldType(s, parent, name).Some? && !IsLeaf(s, NamedType(FieldType(s, parent, name).value)) ==>
        ListEnds(s, fragments, nested, NamedType(FieldType(s, parent, name).value))
    case InlineFragment(on, _, nested) =>
      TypesOverlap(s, parent, TargetType(on, parent)) ==> ListEnds(s, fragments, nested, TargetType(on, parent))
    case _ => true
  }

  ghost predicate FragmentEnds(s: CompiledSchema, fragments: Fragments, name: string)
    requires name in fragments
  {
    IsComposite(s, fragments[name].on) ==> ListEnds(s, fragments, fragments[name].selections, fragments[name].on)
  }

  ghost predicate FragmentsEnd(s: CompiledSchema, fragments: Fragments) {
    forall name :: name in fragments ==> FragmentEnds(s, fragments, name)
  }

  ghost predicate OperationEnds(s: CompiledSchema, roots: map<string, string>, fragments: Fragments,
                                operation: Operation) {
    operation.typ in roots ==> ListEnds(s, fragments, operation.selections, roots[operation.typ])
  }

  /** On layered documents the walk ends. */
  lemma {:induction false} LayeredListEnds(s: CompiledSchema, fragments: Fragments, selections: seq<Selection>,
                                           parent: string)
    requires Layered(fragments)
    ensures ListEnds(s, fragments, selections, parent)
    decreases selections
  {
    LayeredMergingEnds(s, fragments, selections, parent, Depth(fragments, selections) + 1);
    forall i | 0 <= i < |selections| ensures SelectionEnds(s, fragments, selections[i], parent) {
      match selections[i]
      case Field(_, name, _, _, Present(nested)) =>
        if FieldType(s, parent, name).Some? {
          LayeredListEnds(s, fragments, nested, NamedType(FieldType(s, parent, name).value));
        }
      case InlineFragment(on, _, nested) => LayeredListEnds(s, fragments, nested, TargetType(on, parent));
      case _ =>
    }
  }

  lemma LayeredDocumentEnds(s: CompiledSchema, roots: map<string, string>, fragments: Fragments,
                            operations: seq<Operation>)
    requires Layered(fragments)
    ensures FragmentsEnd(s, fragments)
    ensures forall i :: 0 <= i < |operations| ==> OperationEnds(s, roots, fragments, operations[i])
  {
    forall name | name in fragments ensures FragmentEnds(s, fragments, name) {
      LayeredListEnds(s, fragments, fragments[name].selections, fragments[name].on);
    }
    forall i | 0 <= i < |operations| ensures OperationEnds(s, roots, fragments, operations[i]) {
      if operations[i].typ in roots {
        LayeredListEnds(s, fragments, operations[i].selections, roots[operations[i].typ]);
      }
    }
  }

  // ----- The walk -----

  function MergeConflicts(errors: seq<MergeError>): (r: seq<WalkError>)
    ensures |r| == |errors|
  {
    seq(|errors|, i requires 0 <= i < |errors| => MergeConflict(errors[i]))
  }

  class SelectionValidator {
    const schema: CompiledSchema
    const roots: map<string, string>
    const fragments: Fragments
    var errors: seq<WalkError>

    constructor (schema: CompiledSchema, roots: map<string, string>, fragments: Fragments)
      ensures this.schema == schema && this.roots == roots && this.fragments == fragments && errors == []
    {
      this.schema, this.roots, this.fragments := schema, roots, fragments;
      errors := [];
    }

    /** Errors are only added, and none is added exactly when the list is accepted. */
    method ValidateSelections(selections: seq<Selection>, parent: string)
      requires ListEnds(schema, fragments, selections, parent)
      modifies this
      ensures old(errors) <= errors
      ensures errors == old(errors) <==> ListAccepted(schema, roots, fragments, selections, parent)
      decreases selections, 1
    {
      if parent !in schema.types {
        return;
      }
      MergeList(selections, parent);
      ValidateEach(selections, parent);
    }

    method MergeList(selections: seq<Selection>, parent: string)
      requires MergeEnds(schema, fragments, selections, parent)
      modifies this
      ensures old(errors) <= errors
      ensures errors == old(errors) <==> Mergeable(schema, fragments, selections, parent)
    {
      var merger := new MergeValidator(schema, fragments);
      ghost var n :| EndsWithin(schema, fragments, selections, parent, n);
      merger.ValidateFieldMerging(selections, parent, n);
      errors := errors + MergeConflicts(merger.errors);
    }

    method ValidateEach(selections: seq<Selection>, parent: string)
      requires forall i :: 0 <= i < |selections| ==> SelectionEnds(schema, fragments, selections[i], parent)
      modifies this
      ensures old(errors) <= errors
      ensures errors == old(errors) <==>
              forall i :: 0 <= i < |selections| ==> SelectionAccepted(schema, roots, fragments, selections[i], parent)
      decreases selections, 0
    {
      for i := 0 to |selections|
        invariant old(errors) <= errors
        invariant errors == old(errors) <==>
                  forall j :: 0 <= j < i ==> SelectionAccepted(schema, roots, fragments, selections[j], parent)
      {
        ValidateSelection(selections[i], parent);
      }
    }

    method ValidateSelection(selection: Selection, parent: string)
      requires SelectionEnds(schema, fragments, selection, parent)
      modifies this
      ensures old(errors) <= errors
      ensures errors == old(errors) <==> SelectionAccepted(schema, roots, fragments, selection, parent)
      decreases selection, 1
    {
      match selection
      case Field(_, _, _, _, _) => ValidateField(selection, parent);
      case InlineFragment(_, _, _) => ValidateInline(selection, parent);
      case FragmentSpread(_, _) => ValidateSpread(selection, parent);
    }

    method ValidateField(selection: Selection, parent: string)
      requires SelectionEnds(schema, fragments, selection, parent) && selection.Field?
      modifies this
      ensures old(errors) <= errors
      ensures errors == old(errors) <==> SelectionAccepted(schema, roots, fragments, selection, parent)
      decreases selection, 0
    {
      var fieldType := FieldType(schema, parent, selection.name);
      if fieldType.None? {
        if !IsMeta(roots, parent, selection.name) {
          errors := errors + [UnknownField(selection.name, parent)];
        }
        return;
      }
      var typ := NamedType(fieldType.value);
      if IsLeaf(schema, typ) && selection.sub.Present? {
        errors := errors + [SelectionOnLeaf(selection.name, typ)];
      } else if IsComposite(schema, typ) && selection.sub.Absent? {
        errors := errors + [MissingSelection(selection.name, typ)];
      }
      if selection.sub.Present? && !IsLeaf(schema, typ) {
        ValidateSelections(selection.sub.selections, typ);
      }
    }

    method ValidateInline(selection: Selection, parent: string)
      requires SelectionEnds(schema, fragments, selection, parent) && selection.InlineFragment?
      modifies this
      ensures old(errors) <= errors
      ensures errors == old(errors) <==> SelectionAccepted(schema, roots, fragments, selection, parent)
      decreases selection, 0
    {
      var typ := TargetType(selection.on, parent);
      if typ !in schema.types {
        errors := errors + [UnknownInlineType(typ)];
        return;
      }
      if !TypesOverlap(schema, parent, typ) {
        errors := errors + [ImpossibleInline(typ, parent)];
        return;
      }
      ValidateSelections(selection.selections, typ);
    }

    method ValidateSpread(selection: Selection, parent: string)
      requires selection.FragmentSpread?
      modifies this
      ensures old(errors) <= errors
      ensures errors == old(errors) <==> SelectionAccepted(schema, roots, fragments, selection, parent)
    {
      var name := selection.name;
      if name !in fragments {
        errors := errors + [UnknownFragment(name)];
        return;
      }
      var on := fragments[name].on;
      if on in schema.types && !TypesOverlap(schema, parent, on) {
        errors := errors + [ImpossibleSpread(name, on, parent)];
      }
    }

    method ValidateFragment(name: string)
      requires name in fragments && FragmentEnds(schema, fragments, name)
      modifies this
      ensures old(errors) <= errors
      ensures errors == old(errors) <==> FragmentAccepted(schema, roots, fragments, name)
    {
      var on := fragments[name].on;
      if on !in schema.types {
        errors := errors + [UnknownFragmentType(name, on)];
        return;
      }
      if !IsComposite(schema, on) {
        errors := errors + [NonCompositeFragment(name, on)];
        return;
      }
      ValidateSelections(fragments[name].selections, on);
    }

    /** Validates the fragments in any order. */
    method ValidateFragments()
      requires FragmentsEnd(schema, fragments)
      modifies this
      ensures old(errors) <= errors
      ensures errors == old(errors) <==> FragmentsAccepted(schema, roots, fragments)
    {
      var names := fragments.Keys;
      while names != {}
        invariant names <= fragments.Keys && old(errors) <= errors
        invariant errors == old(errors) <==>
                  forall name :: name in fragments.Keys - names ==> FragmentAccepted(schema, roots, fragments, name)
        decreases names
      {
        var name :| name in names;
        ValidateFragment(name);
        names := names - {name};
      }
    }

    method ValidateOperation(operation: Operation)
      requires OperationEnds(schema, roots, fragments, operation)
      modifies this
      ensures old(errors) <= errors
      ensures errors == old(errors) <==> OperationAccepted(schema, roots, fragments, operation)
    {
      if operation.typ !in roots {
        errors := errors + [NoRootType(operation.typ)];
        return;
      }
      ValidateSelections(operation.selections, roots[operation.typ]);
    }

    /** Validates the fragments, then the operations. When nothing is reported, every
        operation executes without ambiguity. */
    method ValidateDocument(operations: seq<Operation>)
      requires FragmentsEnd(schema, fragments)
      requires forall i :: 0 <= i < |operations| ==> OperationEnds(schema, roots, fragments, operations[i])
      modifies this
      ensures old(errors) <= errors
      ensures errors == old(errors) <==>
              && FragmentsAccepted(schema, roots, fragments)
              && forall i :: 0 <= i < |operations| ==> OperationAccepted(schema, roots, fragments, operations[i])
      ensures errors == old(errors) && Closed(schema, roots) ==>
                forall i :: 0 <= i < |operations| ==>
                  operations[i].typ in roots
                  && Unambiguous(schema, fragments, operations[i].selections, roots[operations[i].typ])
      ensures errors == old(errors) ==> forall i :: 0 <= i < |operations| ==> operations[i].typ in roots
    {
      ValidateFragments();
      for i := 0 to |operations|
        invariant old(errors) <= errors
        invariant errors == old(errors) <==>
                  && FragmentsAccepted(schema, roots, fragments)
                  && forall j :: 0 <= j < i ==> OperationAccepted(schema, roots, fragments, operations[j])
      {
        ValidateOperation(operations[i]);
      }
      if errors == old(errors) && Closed(schema, roots) {
        forall i | 0 <= i < |operations|
          ensures Unambiguous(schema, fragments, operations[i].selections, roots[operations[i].typ])
        {
          AcceptedOperationsAreUnambiguous(schema, roots, fragments, operations[i]);
        }
      }
    }
  }

  // ----- What acceptance is good for -----

  /** The types of fields and the root types are declared. */
  ghost predicate Closed(s: CompiledSchema, roots: map<string, string>) {
    && (forall t, f :: t in s.types && f in s.types[t].fields ==> NamedType(s.types[t].fields[f].typ) in s.types)
    && forall o :: o in roots ==> roots[o] in s.types
  }

  /** Every list of an accepted tree was merged by itself. */
  lemma {:induction false} AcceptedListsMerge(s: CompiledSchema, roots: map<string, string>, fragments: Fragments,
                                              selections: seq<Selection>, parent: string)
    requires Closed(s, roots) && parent in s.types
    requires ListAccepted(s, roots, fragments, selections, parent)
    ensures ListsMerge(s, fragments, selections, parent)
    decreases selections
  {
    forall i | 0 <= i < |selections| ensures ListsMergeIn(s, fragments, selections[i], parent) {
      assert SelectionAccepted(s, roots, fragments, selections[i], parent);
      match selections[i]
      case Field(_, name, _, _, Present(nested)) =>
        if FieldType(s, parent, name).Some? {
          AcceptedListsMerge(s, roots, fragments, nested, NamedType(FieldType(s, parent, name).value));
        }
      case InlineFragment(on, _, nested) => AcceptedListsMerge(s, roots, fragments, nested, TargetType(on, parent));
      case _ =>
    }
  }

  lemma AcceptedOperationsAreUnambiguous(s: CompiledSchema, roots: map<string, string>, fragments: Fragments,
                                         operation: Operation)
    requires Closed(s, roots) && FragmentsAccepted(s, roots, fragments)
    requires OperationAccepted(s, roots, fragments, operation)
    ensures Unambiguous(s, fragments, operation.selections, roots[operation.typ])
  {
    forall f | f in fragments ensures ListsMerge(s, fragments, fragments[f].selections, fragments[f].on) {
      assert FragmentAccepted(s, roots, fragments, f);
      AcceptedListsMerge(s, roots, fragments, fragments[f].selections, fragments[f].on);
    }
    AcceptedListsMerge(s, roots, fragments, operation.selections, roots[operation.typ]);
    MergingDocumentsAreUnambiguous(s, fragments, operation.selections, roots[operation.typ]);
  }

  // ----- Which selections are accepted -----

  /** An undeclared field is accepted only if it is `__typename`, or `__schema` or
      `__type` on the query root; what is selected below it is not looked at. */
  lemma UndeclaredFieldAcceptedIff(s: CompiledSchema, roots: map<string, string>, fragments: Fragments,
                                   field: Selection, parent: string)
    requires field.Field? && (parent in s.types ==> field.name !in s.types[parent].fields)
    ensures SelectionAccepted(s, roots, fragments, field, parent) <==>
            || field.name == "__typename"
            || (field.name in {"__schema", "__type"} && "query" in roots && roots["query"] == parent)
  {
  }

  /** A declared field without selections is accepted unless its type is an object,
      interface or union; with them, unless it is a scalar or enum or they are refused. */
  lemma DeclaredFieldAcceptedIff(s: CompiledSchema, roots: map<string, string>, fragments: Fragments, field: Selection,
                                 parent: string, typ: string)
    requires field.Field? && parent in s.types && field.name in s.types[parent].fields && typ in s.types
    requires s.types[parent].fields[field.name].typ
             in {Named(typ), NonNull(Named(typ)), ListOf(Named(typ)), NonNull(ListOf(NonNull(Named(typ))))}
    ensures field.sub.Absent? ==>
              (SelectionAccepted(s, roots, fragments, field, parent) <==>
                 s.types[typ].kind !in {OBJECT, INTERFACE, UNION})
    ensures field.sub.Present? ==>
              (SelectionAccepted(s, roots, fragments, field, parent) <==>
                 && s.types[typ].kind !in {SCALAR, ENUM}
                 && Mergeable(s, fragments, field.sub.selections, typ)
                 && forall i :: 0 <= i < |field.sub.selections| ==>
                      SelectionAccepted(s, roots, fragments, field.sub.selections[i], typ))
  {
    NamedThroughWrappers(typ);
  }

  lemma NamedThroughWrappers(typ: string)
    ensures NamedType(Named(typ)) == typ && NamedType(NonNull(Named(typ))) == typ
            && NamedType(ListOf(Named(typ))) == typ
    ensures NamedType(NonNull(ListOf(NonNull(Named(typ))))) == typ
  {
    assert NamedType(ListOf(NonNull(Named(typ)))) == NamedType(NonNull(Named(typ)));
  }

  /** An inline fragment is accepted when its type, or else its parent's, is known and
      overlaps the parent's, and what is in it is accepted there. */
  lemma InlineFragmentAcceptedIff(s: CompiledSchema, roots: map<string, string>, fragments: Fragments,
                                  ds: seq<Directive>, nested: seq<Selection>, typ: string, parent: string)
    ensures SelectionAccepted(s, roots, fragments, InlineFragment(Some(typ), ds, nested), parent) <==>
            typ in s.types && TypesOverlap(s, parent, typ) && ListAccepted(s, roots, fragments, nested, typ)
    ensures SelectionAccepted(s, roots, fragments, InlineFragment(None, ds, nested), parent) <==>
            parent in s.types && ListAccepted(s, roots, fragments, nested, parent)
  {
  }

  /** A spread is accepted when its fragment is known and, if the fragment's type is
      known, overlaps the parent's. */
  lemma SpreadAcceptedIff(s: CompiledSchema, roots: map<string, string>, fragments: Fragments, ds: seq<Directive>,
                          name: string, parent: string)
    ensures SelectionAccepted(s, roots, fragments, FragmentSpread(name, ds), parent) <==>
            name in fragments && (fragments[name].on !in s.types || TypesOverlap(s, parent, fragments[name].on))
  {
  }

  /** A fragment is accepted on object, interface and union types only. */
  lemma FragmentAcceptedIff(s: CompiledSchema, roots: map<string, string>, fragments: Fragments, name: string)
    requires name in fragments
    ensures FragmentAccepted(s, roots, fragments, name) <==>
            && fragments[name].on in s.types && s.types[fragments[name].on].kind in {OBJECT, INTERFACE, UNION}
            && ListAccepted(s, roots, fragments, fragments[name].selections, fragments[name].on)
  {
  }

  /** `{ __typename }` is accepted on every type, once and under any alias. */
  lemma TypenameAccepted(s: CompiledSchema, roots: map<string, string>, fragments: Fragments, alias: Option<string>,
                         parent: string)
    requires parent in s.types ==> "__typename" !in s.types[parent].fields
    ensures ListAccepted(s, roots, fragments, [Field(alias, "__typename", None, [], Absent)], parent)
  {
    var field: FieldSelection := Field(alias, "__typename", None, [], Absent);
    UndeclaredFieldAcceptedIff(s, roots, fragments, field, parent);
    AloneMerges(s, fragments, parent, field);
  }

  lemma AloneMerges(s: CompiledSchema, fragments: Fragments, parent: string, field: FieldSelection)
    ensures Mergeable(s, fragments, [field], parent)
  {
    OnePart(fragments, field, parent);
    WithoutSpreads(fragments, [field], parent);
    MergeableIffPairsMerge(s, fragments, [field], parent);
    forall a, b ensures !Both(a, b, multiset{Entry(field, parent)}) {
      MoreThanOne(a, b, Entry(field, parent));
    }
  }

  lemma MoreThanOne<T>(a: T, b: T, x: T)
    ensures !Both(a, b, multiset{x})
  {
    var m := multiset{a, b};
    assert a in m && b in m;
    if a == b {
      assert m[a] == 2;
    }
  }
}
