/**
 How deep field merging recurses: to a bounded depth on layered documents, and of the
 others to a bounded depth on some and without end on some.
 */
module MergeTermination {
  import opened Values
  import opened Schema
  import opened Document
  import opened Layering
  import opened FieldCollection
  import opened FieldMerging
  import opened MergeValidation

  // ----- Layered documents: selections of occurrences are less deep -----

  lemma {:induction false} DirectDepth(h: map<string, nat>, selections: seq<Selection>, parent: string, e: Entry)
    requires e in Direct(selections, parent)
    ensures HeightOf(h, e.field) <= Height(h, selections)
  {
    if e in Direct(selections[1..], parent) {
      DirectDepth(h, selections[1..], parent, e);
    } else {
      match selections[0]
      case InlineFragment(on, _, nested) => DirectDepth(h, nested, TargetType(on, parent), e);
      case _ =>
    }
  }

  lemma {:induction false} SpreadDepth(fragments: Fragments, h: map<string, nat>, selections: seq<Selection>, f: string)
    requires f in LevelSpreads(fragments, selections) && f in h
    ensures h[f] <= Height(h, selections)
  {
    if f in LevelSpreads(fragments, selections[1..]) {
      SpreadDepth(fragments, h, selections[1..], f);
    } else {
      match selections[0]
      case InlineFragment(_, _, nested) => SpreadDepth(fragments, h, nested, f);
      case _ =>
    }
  }

  lemma ReachDepth(fragments: Fragments, h: map<string, nat>, selections: seq<Selection>, f: string)
    requires Bounds(fragments, h) && f in LevelReach(fragments, selections)
    ensures h[f] <= Height(h, selections)
  {
    var shallow := set g | g in fragments.Keys && h[g] <= Height(h, selections);
    LevelSpreadsAreDefined(fragments, selections);
    forall g | g in LevelSpreads(fragments, selections) ensures g in shallow {
      SpreadDepth(fragments, h, selections, g);
    }
    forall g, g' | g in shallow && g' in LevelSpreads(fragments, fragments[g].selections) ensures g' in shallow {
      LevelSpreadsAreDefined(fragments, fragments[g].selections);
      SpreadDepth(fragments, h, fragments[g].selections, g');
    }
    LevelReachIsLeast(fragments, selections, shallow);
  }

  lemma OccurrenceDepth(fragments: Fragments, selections: seq<Selection>, parent: string, e: Entry)
    requires Layered(fragments) && e in Occurrences(fragments, selections, parent)
    ensures HeightOf(Heights(fragments), e.field) <= Depth(fragments, selections)
  {
    var h := Heights(fragments);
    if e in Direct(selections, parent) {
      DirectDepth(h, selections, parent, e);
    } else {
      var f := FieldOfSome(fragments, LevelReach(fragments, selections), e);
      ReachDepth(fragments, h, selections, f);
      DirectDepth(h, fragments[f].selections, fragments[f].on, e);
    }
  }

  lemma CombinedIsShallower(s: CompiledSchema, fragments: Fragments, selections: seq<Selection>, parent: string,
                            es: seq<Entry>)
    requires Layered(fragments) && |Combined(s, es)| > 0
    requires forall e :: e in es ==> e in Occurrences(fragments, selections, parent)
    ensures Depth(fragments, Combined(s, es)) < Depth(fragments, selections)
  {
    var h := Heights(fragments);
    forall i | 0 <= i < |Combined(s, es)|
      ensures HeightOf(h, Combined(s, es)[i]) < Depth(fragments, selections)
    {
      assert Selecting(s, es)[i] in Selecting(s, es);
      OccurrenceDepth(fragments, selections, parent, Selecting(s, es)[i]);
    }
    assert HeightOf(h, Combined(s, es)[0]) < Depth(fragments, selections);
    HeightBelow(h, Combined(s, es), Depth(fragments, selections));
  }

  lemma {:induction false} HeightBelow(h: map<string, nat>, xs: seq<Selection>, bound: nat)
    requires bound > 0 && forall i :: 0 <= i < |xs| ==> HeightOf(h, xs[i]) < bound
    ensures Height(h, xs) < bound
  {
    if xs != [] {
      HeightBelow(h, xs[1..], bound);
    }
  }

  /** On a layered document merging ends, within the depth of the selection list. */
  lemma {:induction false} LayeredMergingEnds(s: CompiledSchema, fragments: Fragments, selections: seq<Selection>,
                                              parent: string, n: nat)
    requires Layered(fragments) && Depth(fragments, selections) < n
    ensures EndsWithin(s, fragments, selections, parent, n)
    decreases n
  {
    var es := Collect(fragments, selections, parent, {}).out;
    CollectIsExact(fragments, selections, parent);
    forall key | !KeyClashes(s, es, key) && |Combined(s, WithKey(es, key))| >= 2
      ensures EndsWithin(s, fragments, Combined(s, WithKey(es, key)), FirstType(Combined(s, WithKey(es, key))), n - 1)
    {
      forall e | e in WithKey(es, key) ensures e in Occurrences(fragments, selections, parent) {
        assert e in multiset(es);
      }
      CombinedIsShallower(s, fragments, selections, parent, WithKey(es, key));
      LayeredMergingEnds(s, fragments, Combined(s, WithKey(es, key)), FirstType(Combined(s, WithKey(es, key))), n - 1);
    }
  }

  // ----- A document that is not layered on which merging ends -----

  /** `fragment F on Q { b { ...F } }` */
  const SPIRAL: Fragments := map["F" := Fragment("Q", [Field(None, "b", None, [], Present([FragmentSpread("F", [])]))])]

  /** One field of a key is never entered, so a fragment may spread itself below it. */
  lemma SpiralEnds(s: CompiledSchema, parent: string)
    ensures !Layered(SPIRAL)
    ensures EndsWithin(s, SPIRAL, [FragmentSpread("F", [])], parent, 1)
    ensures EndsWithin(s, SPIRAL, SPIRAL["F"].selections, parent, 1)
  {
    SpiralIsNotLayered();
    var body, spread := SPIRAL["F"].selections, [FragmentSpread("F", [])];
    assert body[1..] == [] && spread[1..] == [];
    assert Collect(SPIRAL, body, parent, {}).out == [Entry(body[0], parent)];
    assert Collect(SPIRAL, body, "Q", {} + {"F"}).out == [Entry(body[0], "Q")];
    assert Collect(SPIRAL, spread, parent, {}).out == [Entry(body[0], "Q")];
    forall e: Entry, key ensures |Combined(s, WithKey([e], key))| < 2 {
    }
  }

  lemma SpiralIsNotLayered()
    ensures !Layered(SPIRAL)
  {
    forall h ensures !Bounds(SPIRAL, h) {
      var body: seq<Selection> := SPIRAL["F"].selections;
      var spread: seq<Selection> := [FragmentSpread("F", [])];
      assert spread[1..] == [];
      if "F" in h {
        assert Height(h, spread) == h["F"];
        assert HeightOf(h, Field(None, "b", None, [], Present(spread))) == 1 + Height(h, spread);
        HeightAtLeast(h, body, 0);
      }
    }
  }

  // ----- A document on which merging does not end -----

  /** `a { ...F }` */
  const LOOPING: FieldSelection := Field(None, "a", None, [], Present([FragmentSpread("F", [])]))

  /** `fragment F on Q { a { ...F } a { ...F } }` */
  const RING: Fragments := map["F" := Fragment("Q", [LOOPING, LOOPING])]

  lemma RingFields(parent: string, visited: set<string>)
    requires visited == {"F"}
    ensures Collect(RING, RING["F"].selections, parent, visited).out == [Entry(LOOPING, parent), Entry(LOOPING, parent)]
    ensures Collect(RING, RING["F"].selections, parent, visited).visited == visited
  {
    var ss: seq<Selection> := RING["F"].selections;
    assert ss[1..][1..] == [];
    assert Collect(RING, ss[1..][1..], parent, visited) == Collected([], visited);
    assert Collect(RING, ss[1..], parent, visited) == Collected([Entry(LOOPING, parent)], visited);
  }

  lemma SpreadFields(parent: string)
    ensures Collect(RING, [FragmentSpread("F", [])], parent, {})
            == Collected([Entry(LOOPING, "Q"), Entry(LOOPING, "Q")], {"F"})
  {
    var ss := [FragmentSpread("F", [])];
    assert ss[1..] == [];
    RingFields("Q", {"F"});
    assert {} + {"F"} == {"F"};
    assert CollectOne(RING, ss[0], parent, {}) == Collect(RING, RING["F"].selections, "Q", {} + {"F"});
  }

  /** Entering the fragment's two fields leads back to the fragment's two fields. */
  lemma RingRepeats(parent: string)
    ensures var inline := InlineFragment(Some("Q"), [], [FragmentSpread("F", [])]);
            Collect(RING, [inline, inline], parent, {}).out == [Entry(LOOPING, "Q"), Entry(LOOPING, "Q")]
  {
    var inline := InlineFragment(Some("Q"), [], [FragmentSpread("F", [])]);
    var ss := [inline, inline];
    assert ss[1..] == [inline] && ss[1..][1..] == [];
    SpreadFields("Q");
    assert CollectOne(RING, inline, parent, {}) == Collected([Entry(LOOPING, "Q"), Entry(LOOPING, "Q")], {"F"});
    var again := [FragmentSpread("F", [])];
    assert again[1..] == [];
    assert Collect(RING, again, "Q", {"F"}) == Collected([], {"F"});
    assert CollectOne(RING, inline, parent, {"F"}) == Collected([], {"F"});
    assert Collect(RING, ss[1..][1..], parent, {"F"}) == Collected([], {"F"});
    assert Collect(RING, ss[1..], parent, {"F"}) == Collected([], {"F"});
  }

  lemma KeepsBoth<T>(e: T, p: T -> bool)
    requires p(e)
    ensures Filter([e, e], p) == [e, e]
  {
    var es := [e, e];
    assert es[..1] == [e] && es[..1][..0] == [];
    assert Filter(es[..1], p) == [e];
  }

  lemma KeepsNeither<T>(e: T, p: T -> bool)
    requires !p(e)
    ensures Filter([e, e], p) == []
  {
    var es := [e, e];
    assert es[..1] == [e] && es[..1][..0] == [];
    assert Filter(es[..1], p) == [];
  }

  lemma RingAgrees(s: CompiledSchema, es: seq<Entry>)
    requires FieldType(s, "Q", "a") == Some(Named("Q")) && es == [Entry(LOOPING, "Q"), Entry(LOOPING, "Q")]
    ensures !KeyClashes(s, es, "a")
  {
    CompatibleWithItself(s, Entry(LOOPING, "Q"));
  }

  lemma RingCombines(s: CompiledSchema, es: seq<Entry>)
    requires FieldType(s, "Q", "a") == Some(Named("Q")) && es == [Entry(LOOPING, "Q"), Entry(LOOPING, "Q")]
    ensures var inline := InlineFragment(Some("Q"), [], [FragmentSpread("F", [])]);
            Combined(s, WithKey(es, "a")) == [inline, inline]
    ensures !KeyClashes(s, es, "a")
  {
    var e := Entry(LOOPING, "Q");
    KeepsBoth(e, (x: Entry) => ResponseKey(x) == "a");
    assert WithKey(es, "a") == es;
    KeepsBoth(e, (x: Entry) => HasSelections(s, x));
    assert Selecting(s, es) == es;
    RingAgrees(s, es);
  }

  /** `{ ...F }` with this fragment, where `a` is a field of Q of type Q: merging never ends. */
  lemma {:induction false} RingNeverEnds(s: CompiledSchema, n: nat)
    requires FieldType(s, "Q", "a") == Some(Named("Q")) && !IsLeaf(s, "Q")
    ensures !EndsWithin(s, RING, [FragmentSpread("F", [])], "Q", n)
  {
    if n > 0 {
      SpreadFields("Q");
      var es := Collect(RING, [FragmentSpread("F", [])], "Q", {}).out;
      RingCombines(s, es);
      InnerNeverEnds(s, n - 1);
    }
  }

  /** Over a schema that does not type `a` the same fragment is a conflict at once, and
      merging ends: fragments alone do not decide it. */
  lemma RingEndsUntyped(s: CompiledSchema)
    requires FieldType(s, "Q", "a").None?
    ensures EndsWithin(s, RING, [FragmentSpread("F", [])], "Q", 1)
  {
    SpreadFields("Q");
    var es := Collect(RING, [FragmentSpread("F", [])], "Q", {}).out;
    CompatibleWithItself(s, es[0]);
    assert Clashes(s, es, 1);
    forall key | !KeyClashes(s, es, key) ensures WithKey(es, key) == [] {
      assert ResponseKey(es[1]) == "a";
      KeepsNeither(es[0], (e: Entry) => ResponseKey(e) == key);
    }
  }

  lemma {:induction false} InnerNeverEnds(s: CompiledSchema, n: nat)
    requires FieldType(s, "Q", "a") == Some(Named("Q")) && !IsLeaf(s, "Q")
    ensures var inline := InlineFragment(Some("Q"), [], [FragmentSpread("F", [])]);
            !EndsWithin(s, RING, [inline, inline], "Q", n)
    decreases n
  {
    if n > 0 {
      var inline := InlineFragment(Some("Q"), [], [FragmentSpread("F", [])]);
      RingRepeats("Q");
      var es := Collect(RING, [inline, inline], "Q", {}).out;
      RingCombines(s, es);
      InnerNeverEnds(s, n - 1);
    }
  }
}
