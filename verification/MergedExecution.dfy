/**
 What field merging is for: in a document whose selection lists all merge, an
 executor that groups fields by response key never meets two different fields or
 two different argument lists under one key, at any depth.
 */
module MergedExecution {
  import opened Values
  import opened Schema
  import opened Document
  import opened FieldCollection
  import opened FieldMerging
  import opened MergeValidation

  /** Every selection list of a tree of selections merges by itself. */
  ghost predicate ListsMerge(s: CompiledSchema, fragments: Fragments, selections: seq<Selection>, parent: string)
    decreases selections
  {
    && Mergeable(s, fragments, selections, parent)
    && forall i :: 0 <= i < |selections| ==> ListsMergeIn(s, fragments, selections[i], parent)
  }

  ghost predicate ListsMergeIn(s: CompiledSchema, fragments: Fragments, selection: Selection, parent: string)
    decreases selection
  {
    match selection
    case Field(_, _, _, _, Absent) => true
    case Field(_, name, _, _, Present(nested)) =>
      FieldType(s, parent, name).Some? ==>
        ListsMerge(s, fragments, nested, NamedType(FieldType(s, parent, name).value))
    case InlineFragment(on, _, nested) => ListsMerge(s, fragments, nested, TargetType(on, parent))
    case FragmentSpread(_, _) => true
  }

  ghost predicate FragmentsMerge(s: CompiledSchema, fragments: Fragments) {
    forall f :: f in fragments ==> ListsMerge(s, fragments, fragments[f].selections, fragments[f].on)
  }

  /** A value of object type `runtimeType` is selected from by the field `e`. */
  predicate Admits(s: CompiledSchema, runtimeType: string, e: Entry) {
    runtimeType in PossibleObjects(s, e.parent)
  }

  predicate SameField(a: Entry, b: Entry) {
    a.field.name == b.field.name && ArgumentsEqual(a.field.arguments, b.field.arguments)
  }

  /** Fields an executor merges: one response key, all applying to one object type. */
  ghost predicate Group(s: CompiledSchema, runtimeType: string, es: seq<Entry>, from: multiset<Entry>) {
    && multiset(es) <= from
    && forall i :: 0 <= i < |es| ==> Admits(s, runtimeType, es[i]) && ResponseKey(es[i]) == ResponseKey(es[0])
  }

  /** Every group is one field with one argument list, and its merged selections
      are unambiguous again, `depth` levels down. */
  ghost predicate UnambiguousTo(s: CompiledSchema, fragments: Fragments, selections: seq<Selection>, parent: string,
                                depth: nat)
    decreases depth
  {
    forall runtimeType: string, es: seq<Entry> ::
      Group(s, runtimeType, es, Occurrences(fragments, selections, parent)) ==>
        && (forall i, j :: 0 <= i < j < |es| ==> SameField(es[i], es[j]))
        && (depth > 0 && Combined(s, es) != [] ==> UnambiguousTo(s, fragments, Combined(s, es), "", depth - 1))
  }

  /** Execution meets no ambiguity at any depth, on whatever fragments. */
  ghost predicate Unambiguous(s: CompiledSchema, fragments: Fragments, selections: seq<Selection>, parent: string) {
    forall depth: nat :: UnambiguousTo(s, fragments, selections, parent, depth)
  }

  /** The selection lists below every collected field merge by themselves. */
  ghost predicate BelowMerges(s: CompiledSchema, fragments: Fragments, e: Entry) {
    HasSelections(s, e) ==> ListsMerge(s, fragments, e.field.sub.selections, SubType(s, e))
  }

  lemma {:induction false} DirectFieldsBelowMerge(s: CompiledSchema, fragments: Fragments, selections: seq<Selection>,
                                                  parent: string, e: Entry)
    requires forall i :: 0 <= i < |selections| ==> ListsMergeIn(s, fragments, selections[i], parent)
    requires e in Direct(selections, parent)
    ensures BelowMerges(s, fragments, e)
    decreases selections
  {
    assert ListsMergeIn(s, fragments, selections[0], parent);
    if e in DirectOf(selections[0], parent) {
      match selections[0]
      case InlineFragment(on, _, nested) =>
        assert ListsMerge(s, fragments, nested, TargetType(on, parent));
        DirectFieldsBelowMerge(s, fragments, nested, TargetType(on, parent), e);
      case _ =>
    } else {
      DirectFieldsBelowMerge(s, fragments, selections[1..], parent, e);
    }
  }

  /** The hypothesis that is kept from one merged selection list to the next. */
  ghost predicate Sound(s: CompiledSchema, fragments: Fragments, selections: seq<Selection>, parent: string) {
    && Mergeable(s, fragments, selections, parent)
    && forall i :: 0 <= i < |selections| ==> ListsMergeIn(s, fragments, selections[i], parent)
  }

  lemma OccurrencesBelowMerge(s: CompiledSchema, fragments: Fragments, selections: seq<Selection>, parent: string,
                              e: Entry)
    requires FragmentsMerge(s, fragments) && Sound(s, fragments, selections, parent)
    requires e in Occurrences(fragments, selections, parent)
    ensures BelowMerges(s, fragments, e)
  {
    if e in Direct(selections, parent) {
      DirectFieldsBelowMerge(s, fragments, selections, parent, e);
    } else {
      var f := FieldOfSome(fragments, LevelReach(fragments, selections), e);
      assert ListsMerge(s, fragments, fragments[f].selections, fragments[f].on);
      DirectFieldsBelowMerge(s, fragments, fragments[f].selections, fragments[f].on, e);
    }
  }

  lemma GroupPairOccurs(s: CompiledSchema, runtimeType: string, es: seq<Entry>, from: multiset<Entry>, i: nat, j: nat)
    requires Group(s, runtimeType, es, from) && i < j < |es|
    ensures Both(es[i], es[j], from) && ResponseKey(es[i]) == ResponseKey(es[j])
    ensures TypesOverlap(s, es[i].parent, es[j].parent)
  {
    BothAtIndices(es, i, j);
    assert runtimeType in PossibleObjects(s, es[i].parent) * PossibleObjects(s, es[j].parent);
  }

  /** A single merged list merges because the list it comes from does. */
  lemma SingleListMerges(s: CompiledSchema, fragments: Fragments, e: Entry)
    requires HasSelections(s, e) && BelowMerges(s, fragments, e)
    ensures Mergeable(s, fragments, [AsInline(s, e)], "")
  {
    var xs := [AsInline(s, e)];
    assert xs[1..] == [];
    assert Direct(xs, "") == Direct(e.field.sub.selections, SubType(s, e));
    assert LevelSpreads(fragments, xs) == LevelSpreads(fragments, e.field.sub.selections);
    LevelReachBySpreads(fragments, xs, e.field.sub.selections);
    LevelReachBySpreads(fragments, e.field.sub.selections, xs);
    assert LevelReach(fragments, xs) == LevelReach(fragments, e.field.sub.selections);
    MergeableByOccurrences(s, fragments, e.field.sub.selections, SubType(s, e), xs, "");
  }

  lemma GroupFieldBelowMerges(s: CompiledSchema, fragments: Fragments, selections: seq<Selection>, parent: string,
                              es: seq<Entry>, k: nat)
    requires FragmentsMerge(s, fragments) && Sound(s, fragments, selections, parent)
    requires multiset(es) <= Occurrences(fragments, selections, parent) && k < |Combined(s, es)|
    ensures HasSelections(s, Selecting(s, es)[k]) && BelowMerges(s, fragments, Selecting(s, es)[k])
    ensures ListsMergeIn(s, fragments, Combined(s, es)[k], "")
  {
    var e := Selecting(s, es)[k];
    assert e in Selecting(s, es) && e in es && e in multiset(es);
    OccurrencesBelowMerge(s, fragments, selections, parent, e);
  }

  lemma GroupPairMerges(s: CompiledSchema, fragments: Fragments, selections: seq<Selection>, parent: string,
                        runtimeType: string, es: seq<Entry>, k: nat, l: nat)
    requires Mergeable(s, fragments, selections, parent)
    requires Group(s, runtimeType, es, Occurrences(fragments, selections, parent)) && k < l < |Combined(s, es)|
    ensures Mergeable(s, fragments, [Combined(s, es)[k], Combined(s, es)[l]], "")
  {
    var selecting := Selecting(s, es);
    assert selecting[k] in selecting && selecting[l] in selecting;
    var i, j := FilterOrigins(es, (e: Entry) => HasSelections(s, e), k, l);
    GroupPairOccurs(s, runtimeType, es, Occurrences(fragments, selections, parent), i, j);
    MergeablePair(s, fragments, selections, parent, es[i], es[j]);
    Reparent(s, fragments, [AsInline(s, es[i]), AsInline(s, es[j])], SubType(s, es[i]), "");
  }

  lemma MergedGroupIsSound(s: CompiledSchema, fragments: Fragments, selections: seq<Selection>, parent: string,
                           runtimeType: string, es: seq<Entry>)
    requires FragmentsMerge(s, fragments) && Sound(s, fragments, selections, parent)
    requires Group(s, runtimeType, es, Occurrences(fragments, selections, parent)) && Combined(s, es) != []
    ensures Sound(s, fragments, Combined(s, es), "")
  {
    var xs := Combined(s, es);
    forall k | 0 <= k < |xs| ensures ListsMergeIn(s, fragments, xs[k], "") {
      GroupFieldBelowMerges(s, fragments, selections, parent, es, k);
    }
    if |xs| == 1 {
      GroupFieldBelowMerges(s, fragments, selections, parent, es, 0);
      SingleListMerges(s, fragments, Selecting(s, es)[0]);
      assert xs == [AsInline(s, Selecting(s, es)[0])];
    } else {
      forall k, l | 0 <= k < l < |xs| ensures Mergeable(s, fragments, [xs[k], xs[l]], "") {
        GroupPairMerges(s, fragments, selections, parent, runtimeType, es, k, l);
      }
      AllAtOnceIsPairwise(s, fragments, xs, "");
    }
  }

  lemma {:induction false} SoundIsUnambiguous(s: CompiledSchema, fragments: Fragments, selections: seq<Selection>,
                                              parent: string, depth: nat)
    requires FragmentsMerge(s, fragments) && Sound(s, fragments, selections, parent)
    ensures UnambiguousTo(s, fragments, selections, parent, depth)
    decreases depth
  {
    forall runtimeType: string, es: seq<Entry> | Group(s, runtimeType, es, Occurrences(fragments, selections, parent))
      ensures forall i, j :: 0 <= i < j < |es| ==> SameField(es[i], es[j])
      ensures depth > 0 && Combined(s, es) != [] ==> UnambiguousTo(s, fragments, Combined(s, es), "", depth - 1)
    {
      forall i, j | 0 <= i < j < |es| ensures SameField(es[i], es[j]) {
        GroupPairOccurs(s, runtimeType, es, Occurrences(fragments, selections, parent), i, j);
        MergeablePair(s, fragments, selections, parent, es[i], es[j]);
      }
      if depth > 0 && Combined(s, es) != [] {
        MergedGroupIsSound(s, fragments, selections, parent, runtimeType, es);
        SoundIsUnambiguous(s, fragments, Combined(s, es), "", depth - 1);
      }
    }
  }

  /** A document whose selection lists all merge executes without ambiguity. */
  lemma MergingDocumentsAreUnambiguous(s: CompiledSchema, fragments: Fragments, selections: seq<Selection>,
                                       root: string)
    requires FragmentsMerge(s, fragments) && ListsMerge(s, fragments, selections, root)
    ensures Unambiguous(s, fragments, selections, root)
  {
    forall depth: nat ensures UnambiguousTo(s, fragments, selections, root, depth) {
      SoundIsUnambiguous(s, fragments, selections, root, depth);
    }
  }
}
