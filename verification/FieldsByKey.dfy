/**
 Field merging on short selection lists, in terms of what is written in them:
 aliases, names, arguments and the kinds of types.
 */
module FieldsByKey {
  import opened Values
  import opened Schema
  import opened Document
  import opened FieldCollection
  import opened FieldMerging
  import opened MergeValidation
  import opened MergedExecution

  // ----- Two fields side by side -----

  lemma WithoutSpreads(fragments: Fragments, xs: seq<Selection>, parent: string)
    requires LevelSpreads(fragments, xs) == {}
    ensures Occurrences(fragments, xs, parent) == multiset(Direct(xs, parent))
  {
    assert LevelReach(fragments, xs) == {};
  }

  lemma TwoOccurrences(fragments: Fragments, parent: string, f: FieldSelection, g: FieldSelection)
    ensures Occurrences(fragments, [f, g], parent) == multiset{Entry(f, parent), Entry(g, parent)}
  {
    PairParts(fragments, f, g, parent);
    WithoutSpreads(fragments, [f, g], parent);
  }

  lemma OnlyThePair<T>(x: T, y: T, a: T, b: T)
    requires Both(a, b, multiset{x, y})
    ensures (a == x && b == y) || (a == y && b == x)
  {
    var m := multiset{a, b};
    assert a in m && b in m;
    if a == b {
      assert m[a] == 2;
      assert multiset{x, y}[a] >= 2;
    }
  }

  /** Two fields without selections merge exactly when their keys differ or they are
      compatible. */
  lemma TwoLeavesMergeIff(s: CompiledSchema, fragments: Fragments, parent: string, f: FieldSelection, g: FieldSelection)
    requires f.sub.Absent? && g.sub.Absent?
    ensures Mergeable(s, fragments, [f, g], parent) <==>
            (ResponseKey(Entry(f, parent)) == ResponseKey(Entry(g, parent)) ==>
               Compatible(s, Entry(f, parent), Entry(g, parent)))
  {
    var x, y := Entry(f, parent), Entry(g, parent);
    TwoOccurrences(fragments, parent, f, g);
    MergeableIffPairsMerge(s, fragments, [f, g], parent);
    CompatibleIsSymmetric(s, x, y);
    assert Both(x, y, multiset{x, y});
    forall a, b | Both(a, b, multiset{x, y}) ensures (a == x && b == y) || (a == y && b == x) {
      OnlyThePair(x, y, a, b);
    }
  }

  lemma CompatibleIsSymmetric(s: CompiledSchema, a: Entry, b: Entry)
    ensures Compatible(s, a, b) <==> Compatible(s, b, a)
  {
    ArgumentsEqualIffSameNormalForm(a.field.arguments, b.field.arguments);
    ArgumentsEqualIffSameNormalForm(b.field.arguments, a.field.arguments);
    if EntryType(s, a).Some? && EntryType(s, b).Some? {
      SameResponseShapeIffSameShape(s, EntryType(s, a).value, EntryType(s, b).value);
      SameResponseShapeIffSameShape(s, EntryType(s, b).value, EntryType(s, a).value);
    }
  }

  /** Fields with different aliases merge, whatever they select. */
  lemma DifferentAliasesMerge(s: CompiledSchema, fragments: Fragments, parent: string, f: FieldSelection,
                              g: FieldSelection)
    requires f.sub.Absent? && g.sub.Absent?
    requires f.alias.Some? && g.alias.Some? && f.alias.value != g.alias.value
    ensures Mergeable(s, fragments, [f, g], parent)
  {
    TwoLeavesMergeIff(s, fragments, parent, f, g);
  }

  /** Fields of different names without aliases merge. */
  lemma DifferentNamesMerge(s: CompiledSchema, fragments: Fragments, parent: string, f: FieldSelection,
                            g: FieldSelection)
    requires f.sub.Absent? && g.sub.Absent?
    requires f.alias.None? && g.alias.None? && f.name != g.name
    ensures Mergeable(s, fragments, [f, g], parent)
  {
    TwoLeavesMergeIff(s, fragments, parent, f, g);
  }

  /** An aliased field merges with a field of another alias or name. */
  lemma AliasApartFromName(s: CompiledSchema, fragments: Fragments, parent: string, f: FieldSelection,
                           g: FieldSelection)
    requires f.sub.Absent? && g.sub.Absent?
    requires f.alias.Some? && g.alias.None? && f.alias.value != g.name
    ensures Mergeable(s, fragments, [f, g], parent)
  {
    TwoLeavesMergeIff(s, fragments, parent, f, g);
  }

  /** A field aliased as another's name, with another name itself, is a conflict, with or
      without selections. */
  lemma AliasTakesName(s: CompiledSchema, fragments: Fragments, parent: string, f: FieldSelection, g: FieldSelection)
    requires f.alias == Some(g.name) && g.alias.None? && f.name != g.name
    ensures !Mergeable(s, fragments, [f, g], parent)
  {
    TwoOccurrences(fragments, parent, f, g);
    MergeableIffPairsMerge(s, fragments, [f, g], parent);
    assert Both(Entry(f, parent), Entry(g, parent), Occurrences(fragments, [f, g], parent));
  }

  /** Fields aliased alike, or not at all and named alike, on one parent: other names or
      other arguments are a conflict. */
  lemma SameKeyMustAgree(s: CompiledSchema, fragments: Fragments, parent: string, f: FieldSelection, g: FieldSelection)
    requires f.alias == g.alias && (f.alias.None? ==> f.name == g.name)
    requires f.name != g.name || !ArgumentsEqual(f.arguments, g.arguments)
    ensures !Mergeable(s, fragments, [f, g], parent)
  {
    TwoOccurrences(fragments, parent, f, g);
    MergeableIffPairsMerge(s, fragments, [f, g], parent);
    assert Both(Entry(f, parent), Entry(g, parent), Occurrences(fragments, [f, g], parent));
  }

  /** One field with equal arguments, under one alias, under its name or under an alias
      that is its name, merges with itself exactly when it is declared. */
  lemma SameFieldMergesIff(s: CompiledSchema, fragments: Fragments, parent: string, f: FieldSelection,
                           g: FieldSelection)
    requires f.sub.Absent? && g.sub.Absent?
    requires f.name == g.name && ArgumentsEqual(f.arguments, g.arguments)
    requires f.alias == g.alias || (f.alias == Some(f.name) && g.alias.None?)
    ensures Mergeable(s, fragments, [f, g], parent) <==> parent in s.types && f.name in s.types[parent].fields
  {
    TwoLeavesMergeIff(s, fragments, parent, f, g);
    if parent in s.types && f.name in s.types[parent].fields {
      var typ := s.types[parent].fields[f.name].typ;
      SameResponseShapeIffSameShape(s, typ, typ);
    }
  }

  /** `{ first: user(id: "a") second: user(id: "b") }` is no conflict, and
      `{ x: a x: b }` is one. */
  lemma AliasesDecide(s: CompiledSchema, fragments: Fragments, parent: string)
    ensures Mergeable(s, fragments, [Field(Some("first"), "user", Some(map["id" := Str("a")]), [], Absent),
                                     Field(Some("second"), "user", Some(map["id" := Str("b")]), [], Absent)], parent)
    ensures !Mergeable(s, fragments, [Field(Some("x"), "a", None, [], Absent),
                                      Field(Some("x"), "b", None, [], Absent)], parent)
  {
    DifferentAliasesMerge(s, fragments, parent, Field(Some("first"), "user", Some(map["id" := Str("a")]), [], Absent),
                          Field(Some("second"), "user", Some(map["id" := Str("b")]), [], Absent));
    SameKeyMustAgree(s, fragments, parent, Field(Some("x"), "a", None, [], Absent),
                     Field(Some("x"), "b", None, [], Absent));
  }

  // ----- On different types -----

  lemma TypedOccurrences(fragments: Fragments, parent: string, t: string, u: string, f: FieldSelection,
                         g: FieldSelection)
    ensures Occurrences(fragments, [InlineFragment(Some(t), [], [f]), InlineFragment(Some(u), [], [g])], parent)
            == multiset{Entry(f, t), Entry(g, u)}
  {
    var x, y := InlineFragment(Some(t), [], [f]), InlineFragment(Some(u), [], [g]);
    OnePart(fragments, f, t);
    OnePart(fragments, g, u);
    PairParts(fragments, x, y, parent);
    WithoutSpreads(fragments, [x, y], parent);
  }

  /** `... on T { f } ... on U { g }` with one key, for two object types: the fields may
      differ in name and arguments but not in the shape of their responses. */
  lemma DifferentObjectsMergeIffSameShape(s: CompiledSchema, fragments: Fragments, parent: string, t: string, u: string,
                                          f: FieldSelection, g: FieldSelection)
    requires t in s.types && u in s.types && t != u && s.types[t].kind == OBJECT && s.types[u].kind == OBJECT
    requires f.sub.Absent? && g.sub.Absent? && f.alias.Some? && f.alias == g.alias
    requires f.name in s.types[t].fields && g.name in s.types[u].fields
    ensures Mergeable(s, fragments, [InlineFragment(Some(t), [], [f]), InlineFragment(Some(u), [], [g])], parent) <==>
            ShapeOf(s, s.types[t].fields[f.name].typ) == ShapeOf(s, s.types[u].fields[g.name].typ)
  {
    TypedPairMergesIff(s, fragments, parent, t, u, f, g);
    SameResponseShapeIffSameShape(s, s.types[t].fields[f.name].typ, s.types[u].fields[g.name].typ);
    ObjectsDoNotOverlap(s, t, u);
  }

  /** The same for an object type and an abstract type it belongs to: name and arguments
      must agree as well. */
  lemma OverlappingTypesMustAgree(s: CompiledSchema, fragments: Fragments, parent: string, o: string, a: string,
                                  f: FieldSelection, g: FieldSelection)
    requires o in s.types && s.types[o].kind == OBJECT
    requires a in s.types && (s.types[a].kind == INTERFACE || s.types[a].kind == UNION)
    requires a in s.possibleTypes && o in s.possibleTypes[a]
    requires f.alias.Some? && f.alias == g.alias
    requires f.name != g.name || !ArgumentsEqual(f.arguments, g.arguments)
    ensures !Mergeable(s, fragments, [InlineFragment(Some(o), [], [f]), InlineFragment(Some(a), [], [g])], parent)
  {
    TypedOccurrences(fragments, parent, o, a, f, g);
    MergeableIffPairsMerge(s, fragments, [InlineFragment(Some(o), [], [f]), InlineFragment(Some(a), [], [g])], parent);
    assert Both(Entry(f, o), Entry(g, a), multiset{Entry(f, o), Entry(g, a)});
    ObjectOverlapsAbstractIff(s, o, a);
  }

  lemma TypedPairMergesIff(s: CompiledSchema, fragments: Fragments, parent: string, t: string, u: string,
                           f: FieldSelection, g: FieldSelection)
    requires f.sub.Absent? && g.sub.Absent?
    ensures Mergeable(s, fragments, [InlineFragment(Some(t), [], [f]), InlineFragment(Some(u), [], [g])], parent) <==>
            (ResponseKey(Entry(f, t)) == ResponseKey(Entry(g, u)) ==> Compatible(s, Entry(f, t), Entry(g, u)))
  {
    var x, y := Entry(f, t), Entry(g, u);
    TypedOccurrences(fragments, parent, t, u, f, g);
    MergeableIffPairsMerge(s, fragments, [InlineFragment(Some(t), [], [f]), InlineFragment(Some(u), [], [g])], parent);
    CompatibleIsSymmetric(s, x, y);
    assert Both(x, y, multiset{x, y});
    forall a, b | Both(a, b, multiset{x, y}) ensures (a == x && b == y) || (a == y && b == x) {
      OnlyThePair(x, y, a, b);
    }
  }

  // ----- Below a key -----

  lemma EnteredAs(s: CompiledSchema, parent: string, x: FieldSelection, typ: string)
    requires FieldType(s, parent, x.name) == Some(Named(typ)) && x.sub.Present?
    ensures var e := Entry(x, parent);
            && HasSelections(s, e) && SubType(s, e) == typ
            && AsInline(s, e) == InlineFragment(Some(typ), [], x.sub.selections)
  {
  }

  /** `{ a { f } a { g } }`: the conflict of two fields below a key is found there. */
  lemma ConflictBelow(s: CompiledSchema, fragments: Fragments, parent: string, name: string, typ: string,
                      f: FieldSelection, g: FieldSelection)
    requires FieldType(s, parent, name) == Some(Named(typ))
    requires !Mergeable(s, fragments, [InlineFragment(Some(typ), [], [f]), InlineFragment(Some(typ), [], [g])], typ)
    ensures !Mergeable(s, fragments,
                       [Field(None, name, None, [], Present([f])), Field(None, name, None, [], Present([g]))], parent)
  {
    var x: FieldSelection := Field(None, name, None, [], Present([f]));
    var y: FieldSelection := Field(None, name, None, [], Present([g]));
    TwoOccurrences(fragments, parent, x, y);
    EnteredAs(s, parent, x, typ);
    EnteredAs(s, parent, y, typ);
    if Mergeable(s, fragments, [x, y], parent) {
      MergeablePair(s, fragments, [x, y], parent, Entry(x, parent), Entry(y, parent));
    }
  }

  /** `{ a { x: b } a { x: c } }` is a conflict. */
  lemma NestedAliasesConflict(s: CompiledSchema, fragments: Fragments, parent: string, typ: string)
    requires FieldType(s, parent, "a") == Some(Named(typ))
    ensures !Mergeable(s, fragments, [Field(None, "a", None, [], Present([Field(Some("x"), "b", None, [], Absent)])),
                                      Field(None, "a", None, [], Present([Field(Some("x"), "c", None, [], Absent)]))],
                       parent)
  {
    var b, c := Field(Some("x"), "b", None, [], Absent), Field(Some("x"), "c", None, [], Absent);
    TypedPairMergesIff(s, fragments, typ, typ, typ, b, c);
    ConflictBelow(s, fragments, parent, "a", typ, b, c);
  }

  // ----- What is collected -----

  /** Fields of an inline fragment stand on its type, or on the parent's without one;
      those of a spread fragment on the fragment's. */
  lemma CollectedParents(fragments: Fragments, parent: string, f: FieldSelection, t: string, name: string)
    ensures Collect(fragments, [f], parent, {}).out == [Entry(f, parent)]
    ensures Collect(fragments, [InlineFragment(Some(t), [], [f])], parent, {}).out == [Entry(f, t)]
    ensures Collect(fragments, [InlineFragment(None, [], [f])], parent, {}).out == [Entry(f, parent)]
    ensures Collect(map[name := Fragment(t, [f])], [FragmentSpread(name, [])], parent, {}).out == [Entry(f, t)]
  {
    var one: seq<Selection> := [f];
    var typed: seq<Selection> := [InlineFragment(Some(t), [], one)];
    var untyped: seq<Selection> := [InlineFragment(None, [], one)];
    var spread: seq<Selection> := [FragmentSpread(name, [])];
    assert one[1..] == [] && typed[1..] == [] && untyped[1..] == [] && spread[1..] == [];
    assert Collect(fragments, one, t, {}).out == [Entry(f, t)];
    assert Collect(map[name := Fragment(t, [f])], one, t, {} + {name}).out == [Entry(f, t)];
  }

  // ----- Kinds of types -----

  /** Two object types overlap only if they are one. */
  lemma ObjectsDoNotOverlap(s: CompiledSchema, t: string, u: string)
    requires t in s.types && u in s.types && s.types[t].kind == OBJECT && s.types[u].kind == OBJECT
    ensures TypesOverlap(s, t, u) <==> t == u
  {
  }

  /** An object type overlaps an interface or union exactly when it belongs to it. */
  lemma ObjectOverlapsAbstractIff(s: CompiledSchema, o: string, a: string)
    requires o in s.types && s.types[o].kind == OBJECT
    requires a in s.types && (s.types[a].kind == INTERFACE || s.types[a].kind == UNION)
    ensures TypesOverlap(s, o, a) <==> a in s.possibleTypes && o in s.possibleTypes[a]
    ensures TypesOverlap(s, a, o) <==> a in s.possibleTypes && o in s.possibleTypes[a]
  {
    if a in s.possibleTypes {
      PossibleObjectsOfAbstract(s, a, o);
    }
  }

  lemma PossibleObjectsOfAbstract(s: CompiledSchema, a: string, o: string)
    requires a in s.types && (s.types[a].kind == INTERFACE || s.types[a].kind == UNION) && a in s.possibleTypes
    ensures o in PossibleObjects(s, a) <==> o in s.possibleTypes[a] && o in s.types && s.types[o].kind == OBJECT
  {
    if o in s.possibleTypes[a] && o in s.types && s.types[o].kind == OBJECT {
      var i :| 0 <= i < |s.possibleTypes[a]| && s.possibleTypes[a][i] == o;
      assert o in PossibleObjects(s, s.possibleTypes[a][i]);
    }
    if o in PossibleObjects(s, a) {
      var i :| 0 <= i < |s.possibleTypes[a]| && o in PossibleObjects(s, s.possibleTypes[a][i]);
      assert !IsAbstract(s, s.possibleTypes[a][i]);
    }
  }

  /** Two abstract types overlap exactly when they are one or share an object type. */
  lemma AbstractOverlapIff(s: CompiledSchema, a: string, b: string)
    requires a in s.types && (s.types[a].kind == INTERFACE || s.types[a].kind == UNION) && a in s.possibleTypes
    requires b in s.types && (s.types[b].kind == INTERFACE || s.types[b].kind == UNION) && b in s.possibleTypes
    ensures TypesOverlap(s, a, b) <==>
            a == b || exists o :: o in s.possibleTypes[a] && o in s.possibleTypes[b] && o in s.types
                                  && s.types[o].kind == OBJECT
  {
    forall o ensures o in PossibleObjects(s, a) <==>
      o in s.possibleTypes[a] && o in s.types && s.types[o].kind == OBJECT {
      PossibleObjectsOfAbstract(s, a, o);
    }
    forall o ensures o in PossibleObjects(s, b) <==>
      o in s.possibleTypes[b] && o in s.types && s.types[o].kind == OBJECT {
      PossibleObjectsOfAbstract(s, b, o);
    }
    if a != b && TypesOverlap(s, a, b) {
      var o :| o in PossibleObjects(s, a) * PossibleObjects(s, b);
    }
    if o :| o in s.possibleTypes[a] && o in s.possibleTypes[b] && o in s.types && s.types[o].kind == OBJECT {
      assert o in PossibleObjects(s, a) * PossibleObjects(s, b);
    }
  }

  /** Scalars and enums give responses of one shape only if they are one type; object,
      interface and union types all do; neither do with the other. Wrappers must agree. */
  lemma ShapesByKind(s: CompiledSchema, t: string, u: string, x: TypeRef, y: TypeRef)
    requires t in s.types && u in s.types
    ensures s.types[t].kind in {SCALAR, ENUM} && s.types[u].kind in {SCALAR, ENUM} ==>
              (SameResponseShape(s, Named(t), Named(u)) <==> t == u)
    ensures s.types[t].kind in {OBJECT, INTERFACE, UNION} && s.types[u].kind in {OBJECT, INTERFACE, UNION} ==>
              SameResponseShape(s, Named(t), Named(u))
    ensures s.types[t].kind in {SCALAR, ENUM} && s.types[u].kind in {OBJECT, INTERFACE, UNION} ==>
              !SameResponseShape(s, Named(t), Named(u)) && !SameResponseShape(s, Named(u), Named(t))
    ensures SameResponseShape(s, ListOf(x), ListOf(y)) <==> SameResponseShape(s, x, y)
    ensures SameResponseShape(s, NonNull(x), NonNull(y)) <==> SameResponseShape(s, x, y)
    ensures !SameResponseShape(s, ListOf(x), NonNull(y)) && !SameResponseShape(s, NonNull(x), ListOf(y))
    ensures !SameResponseShape(s, Named(t), NonNull(y)) && !SameResponseShape(s, NonNull(x), Named(u))
    ensures !SameResponseShape(s, Named(t), ListOf(y)) && !SameResponseShape(s, ListOf(x), Named(u))
  {
  }

  // ----- What execution meets -----

  lemma NothingBelowLeaves(s: CompiledSchema, es: seq<Entry>)
    requires forall i :: 0 <= i < |es| ==> es[i].field.sub.Absent?
    ensures Combined(s, es) == []
  {
    if es != [] {
      CombinedTake(s, es, |es| - 1);
      assert es[..|es| - 1 + 1] == es;
      NothingBelowLeaves(s, es[..|es| - 1]);
    }
  }

  lemma GroupOfLeaves(s: CompiledSchema, x: Entry, y: Entry, o: string, es: seq<Entry>)
    requires x.field.sub.Absent? && y.field.sub.Absent?
    requires Group(s, o, es, multiset{x, y})
    requires ResponseKey(x) == ResponseKey(y) && Admits(s, o, x) ==> SameField(x, y)
    requires x.parent == y.parent
    ensures Combined(s, es) == [] && forall i, j :: 0 <= i < j < |es| ==> SameField(es[i], es[j])
  {
    forall i | 0 <= i < |es| ensures es[i] in {x, y} {
      assert es[i] in multiset(es);
    }
    NothingBelowLeaves(s, es);
    forall i, j | 0 <= i < j < |es| ensures SameField(es[i], es[j]) {
      GroupPairOccurs(s, o, es, multiset{x, y}, i, j);
      OnlyThePair(x, y, es[i], es[j]);
      ArgumentsEqualIffSameNormalForm(x.field.arguments, y.field.arguments);
      ArgumentsEqualIffSameNormalForm(y.field.arguments, x.field.arguments);
    }
  }

  /** Two fields without selections are ambiguous exactly when an object has both under one
      key and they differ in name or arguments. */
  lemma TwoLeavesAreUnambiguousIff(s: CompiledSchema, fragments: Fragments, parent: string, f: FieldSelection,
                                   g: FieldSelection, k: string, l: string)
    requires f.sub.Absent? && g.sub.Absent? && f.alias == Some(k)
             && (g.alias == Some(l) || (g.alias.None? && g.name == l))
    ensures Unambiguous(s, fragments, [f, g], parent) <==>
            (k == l && PossibleObjects(s, parent) != {} ==>
               f.name == g.name && ArgumentsEqual(f.arguments, g.arguments))
  {
    var x, y := Entry(f, parent), Entry(g, parent);
    TwoOccurrences(fragments, parent, f, g);
    if k == l && PossibleObjects(s, parent) != {} {
      var o :| o in PossibleObjects(s, parent);
      assert Group(s, o, [x, y], multiset{x, y});
      if Unambiguous(s, fragments, [f, g], parent) {
        assert UnambiguousTo(s, fragments, [f, g], parent, 0);
        assert SameField([x, y][0], [x, y][1]);
      }
    }
    if k == l && PossibleObjects(s, parent) != {} ==> SameField(x, y) {
      forall depth: nat ensures UnambiguousTo(s, fragments, [f, g], parent, depth) {
        forall o, es | Group(s, o, es, multiset{x, y})
          ensures Combined(s, es) == [] && forall i, j :: 0 <= i < j < |es| ==> SameField(es[i], es[j])
        {
          GroupOfLeaves(s, x, y, o, es);
        }
      }
    }
  }
}
