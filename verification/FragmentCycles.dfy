/**
 Detection of fragment-spread cycles: a depth-first search that colours each
 fragment while it is being visited and when it is done.
 */
module FragmentCycles {
  import opened Document

  datatype Color = Visiting | Done

  datatype State = State(colors: map<string, Color>, errors: seq<string>)

  // ----- The search as a function of its state -----

  function Visit(fragments: Fragments, name: string, st: State): (r: State)
    ensures st.colors.Keys <= r.colors.Keys && st.errors <= r.errors
    decreases fragments.Keys - st.colors.Keys, 0, 0
  {
    if name !in fragments then st
    else if name in st.colors then
      if st.colors[name] == Visiting then st.(errors := st.errors + [name]) else st
    else
      var entered := st.(colors := st.colors[name := Visiting]);
      assert name in entered.colors.Keys;
      var left := VisitAll(fragments, Spreads(fragments[name].selections), entered);
      left.(colors := left.colors[name := Done])
  }

  function VisitAll(fragments: Fragments, names: seq<string>, st: State): (r: State)
    ensures st.colors.Keys <= r.colors.Keys && st.errors <= r.errors
    decreases fragments.Keys - st.colors.Keys, 1, |names|
  {
    if names == [] then st
    else
      var st' := Visit(fragments, names[0], st);
      VisitAll(fragments, names[1..], st')
  }

  lemma {:induction false} VisitAllAppend(fragments: Fragments, a: seq<string>, b: seq<string>, st: State)
    ensures VisitAll(fragments, a + b, st) == VisitAll(fragments, b, VisitAll(fragments, a, st))
    decreases |a|
  {
    if a == [] {
      assert a + b == b;
    } else {
      assert (a + b)[1..] == a[1..] + b;
      VisitAllAppend(fragments, a[1..], b, Visit(fragments, a[0], st));
    }
  }

  /** The names reported for a document whose fragments are visited in `keys` order. */
  function CycleErrors(fragments: Fragments, keys: seq<string>): seq<string> {
    VisitAll(fragments, keys, State(map[], [])).errors
  }

  // ----- The spread graph -----

  ghost predicate Edge(fragments: Fragments, from: string, to: string) {
    from in fragments && to in fragments && to in Spreads(fragments[from].selections)
  }

  ghost predicate IsPath(fragments: Fragments, p: seq<string>) {
    forall i :: 0 <= i < |p| - 1 ==> Edge(fragments, p[i], p[i + 1])
  }

  ghost predicate IsCycle(fragments: Fragments, p: seq<string>) {
    |p| >= 2 && IsPath(fragments, p) && p[0] == p[|p| - 1]
  }

  ghost predicate OnCycle(fragments: Fragments, name: string) {
    exists p :: IsCycle(fragments, p) && p[0] == name
  }

  ghost predicate Acyclic(fragments: Fragments) {
    forall p :: !IsCycle(fragments, p)
  }

  // ----- Soundness: the fragments being visited form a path -----

  ghost predicate StackIs(st: State, stack: seq<string>) {
    forall f :: f in stack <==> f in st.colors && st.colors[f] == Visiting
  }

  lemma {:induction false} VisitNamesCycles(fragments: Fragments, name: string, st: State, stack: seq<string>)
    requires StackIs(st, stack) && IsPath(fragments, stack)
    requires stack != [] && name in fragments ==> Edge(fragments, stack[|stack| - 1], name)
    ensures StackIs(Visit(fragments, name, st), stack)
    ensures forall e :: e in Visit(fragments, name, st).errors ==> e in st.errors || OnCycle(fragments, e)
    decreases fragments.Keys - st.colors.Keys, 0, 0
  {
    if name in fragments {
      if name in st.colors {
        if st.colors[name] == Visiting {
          var i :| 0 <= i < |stack| && stack[i] == name;
          assert IsCycle(fragments, stack[i..] + [name]);
          assert (stack[i..] + [name])[0] == name;
        }
      } else {
        var entered := st.(colors := st.colors[name := Visiting]);
        assert name in entered.colors.Keys;
        VisitAllNamesCycles(fragments, Spreads(fragments[name].selections), entered, stack + [name], name);
      }
    }
  }

  lemma {:induction false} VisitAllNamesCycles(fragments: Fragments, names: seq<string>, st: State,
                                               stack: seq<string>, top: string)
    requires StackIs(st, stack) && IsPath(fragments, stack)
    requires stack != [] ==> top == stack[|stack| - 1] && top in fragments
                             && forall n :: n in names ==> n in Spreads(fragments[top].selections)
    ensures StackIs(VisitAll(fragments, names, st), stack)
    ensures forall e :: e in VisitAll(fragments, names, st).errors ==> e in st.errors || OnCycle(fragments, e)
    decreases fragments.Keys - st.colors.Keys, 1, |names|
  {
    if names != [] {
      VisitNamesCycles(fragments, names[0], st, stack);
      VisitAllNamesCycles(fragments, names[1..], Visit(fragments, names[0], st), stack, top);
    }
  }

  // ----- Completeness: the finishing order -----

  /** `order` lists finished fragments so that every spread of one leads to an
      earlier one, unless it leads to a reported fragment. */
  ghost predicate FinishingOrder(fragments: Fragments, order: seq<string>, reported: seq<string>) {
    forall k, g :: 0 <= k < |order| && Edge(fragments, order[k], g) ==> g in order[..k] || g in reported
  }

  ghost predicate Finished(st: State, order: seq<string>) {
    forall f :: f in order <==> f in st.colors && st.colors[f] == Done
  }

  lemma {:induction false} VisitFinishes(fragments: Fragments, name: string, st: State, order: seq<string>)
    returns (order': seq<string>)
    requires Finished(st, order) && FinishingOrder(fragments, order, st.errors)
    ensures Finished(Visit(fragments, name, st), order')
    ensures FinishingOrder(fragments, order', Visit(fragments, name, st).errors)
    ensures order <= order'
    ensures name in fragments ==> name in order' || name in Visit(fragments, name, st).errors
    decreases fragments.Keys - st.colors.Keys, 0, 0
  {
    order' := order;
    if name in fragments && name !in st.colors {
      var entered := st.(colors := st.colors[name := Visiting]);
      var names := Spreads(fragments[name].selections);
      assert name in entered.colors.Keys;
      var inner := VisitAllFinishes(fragments, names, entered, order);
      VisitAllKeepsVisiting(fragments, names, entered, name);
      order' := inner + [name];
      ExtendOrder(fragments, inner, VisitAll(fragments, names, entered).errors, name);
    }
  }

  lemma ExtendOrder(fragments: Fragments, order: seq<string>, reported: seq<string>, name: string)
    requires FinishingOrder(fragments, order, reported)
    requires forall g :: Edge(fragments, name, g) ==> g in order || g in reported
    ensures FinishingOrder(fragments, order + [name], reported)
  {
    var extended := order + [name];
    forall k, g | 0 <= k < |extended| && Edge(fragments, extended[k], g)
      ensures g in extended[..k] || g in reported
    {
      assert extended[..k] == order[..k];
    }
  }

  lemma {:induction false} VisitAllFinishes(fragments: Fragments, names: seq<string>, st: State, order: seq<string>)
    returns (order': seq<string>)
    requires Finished(st, order) && FinishingOrder(fragments, order, st.errors)
    ensures Finished(VisitAll(fragments, names, st), order')
    ensures FinishingOrder(fragments, order', VisitAll(fragments, names, st).errors)
    ensures order <= order'
    ensures forall n :: n in names && n in fragments ==> n in order' || n in VisitAll(fragments, names, st).errors
    decreases fragments.Keys - st.colors.Keys, 1, |names|
  {
    order' := order;
    if names != [] {
      var first := VisitFinishes(fragments, names[0], st, order);
      order' := VisitAllFinishes(fragments, names[1..], Visit(fragments, names[0], st), first);
    }
  }

  /** A fragment already coloured keeps its colour through a visit of others. */
  lemma {:induction false} VisitAllKeepsVisiting(fragments: Fragments, names: seq<string>, st: State, f: string)
    requires f in st.colors
    ensures f in VisitAll(fragments, names, st).colors && VisitAll(fragments, names, st).colors[f] == st.colors[f]
    decreases fragments.Keys - st.colors.Keys, 1, |names|
  {
    if names != [] {
      var name := names[0];
      if name in fragments && name !in st.colors {
        var entered := st.(colors := st.colors[name := Visiting]);
        assert name in entered.colors.Keys;
        VisitAllKeepsVisiting(fragments, Spreads(fragments[name].selections), entered, f);
      }
      VisitAllKeepsVisiting(fragments, names[1..], Visit(fragments, name, st), f);
    }
  }

  /** Along a path that avoids reported fragments, finishing positions decrease. */
  lemma {:induction false} PathsDescend(fragments: Fragments, order: seq<string>, reported: seq<string>,
                                        p: seq<string>, k: nat) returns (j: nat)
    requires FinishingOrder(fragments, order, reported) && IsPath(fragments, p) && |p| >= 2
    requires forall f :: f in p ==> f !in reported
    requires k < |order| && order[k] == p[0]
    ensures j < k && order[j] == p[|p| - 1]
    decreases |p|
  {
    assert Edge(fragments, p[0], p[1]) && p[1] in p;
    var i :| 0 <= i < k && order[i] == p[1];
    if |p| == 2 {
      j := i;
    } else {
      j := PathsDescend(fragments, order, reported, p[1..], i);
    }
  }

  // ----- The theorems -----

  /** Every reported fragment lies on a cycle. */
  lemma ReportedFragmentsLieOnCycles(fragments: Fragments, keys: seq<string>)
    ensures forall e :: e in CycleErrors(fragments, keys) ==> OnCycle(fragments, e)
  {
    VisitAllNamesCycles(fragments, keys, State(map[], []), [], "");
  }

  lemma ReportHasFinishingOrder(fragments: Fragments, keys: seq<string>) returns (order: seq<string>)
    requires forall f :: f in fragments ==> f in keys
    ensures FinishingOrder(fragments, order, CycleErrors(fragments, keys))
    ensures forall f :: f in fragments ==> f in order || f in CycleErrors(fragments, keys)
  {
    order := VisitAllFinishes(fragments, keys, State(map[], []), []);
  }

  /** Every cycle contains a reported fragment. */
  lemma EveryCycleIsReported(fragments: Fragments, keys: seq<string>, p: seq<string>)
    requires forall f :: f in fragments ==> f in keys
    requires IsCycle(fragments, p)
    ensures exists e :: e in p && e in CycleErrors(fragments, keys)
  {
    var errors := CycleErrors(fragments, keys);
    if forall f :: f in p ==> f !in errors {
      var order := ReportHasFinishingOrder(fragments, keys);
      assert Edge(fragments, p[0], p[1]) && p[0] in p;
      var k := FirstIndex(order, p[0]);
      var j := PathsDescend(fragments, order, errors, p, k);
      assert false;
    }
  }

  lemma FirstIndex(order: seq<string>, f: string) returns (k: nat)
    requires f in order
    ensures k < |order| && order[k] == f && f !in order[..k]
  {
    k := 0;
    while order[k] != f
      invariant k < |order| && f !in order[..k]
      decreases |order| - k
    {
      k := k + 1;
    }
  }

  /** The check is silent exactly on acyclic spread graphs. */
  lemma SilentIffAcyclic(fragments: Fragments, keys: seq<string>)
    requires forall f :: f in fragments ==> f in keys
    ensures CycleErrors(fragments, keys) == [] <==> Acyclic(fragments)
  {
    var errors := CycleErrors(fragments, keys);
    ReportedFragmentsLieOnCycles(fragments, keys);
    if errors == [] {
      forall p ensures !IsCycle(fragments, p) {
        if IsCycle(fragments, p) {
          EveryCycleIsReported(fragments, keys, p);
        }
      }
    } else {
      assert errors[0] in errors;
    }
  }

  /** An acyclic document's fragments can be listed so that spreads lead backwards. */
  lemma AcyclicHasOrder(fragments: Fragments) returns (order: seq<string>)
    requires Acyclic(fragments)
    ensures FinishingOrder(fragments, order, [])
    ensures forall f :: f in fragments ==> f in order
  {
    var keys := Enumerate(fragments.Keys);
    SilentIffAcyclic(fragments, keys);
    order := ReportHasFinishingOrder(fragments, keys);
  }

  lemma SpreadsEarlier(fragments: Fragments, order: seq<string>, k: nat, g: string)
    requires FinishingOrder(fragments, order, [])
    requires k < |order| && Edge(fragments, order[k], g)
    ensures g in order[..k]
  {
    var none: seq<string> := [];
    assert g !in none;
    assert FinishingOrder(fragments, order, none);
  }

  // ----- The imperative search -----

  /** Appends the spread names of a selection list to `names`, in order. */
  method CollectFragmentSpreads(names: seq<string>, selections: seq<Selection>) returns (out: seq<string>)
    ensures out == names + Spreads(selections)
    decreases selections
  {
    out := names;
    var i := 0;
    while i < |selections|
      invariant 0 <= i <= |selections|
      invariant out == names + Spreads(selections[..i])
    {
      match selections[i] {
        case FragmentSpread(name, _) => out := out + [name];
        case Field(_, _, _, _, Present(nested)) => out := CollectFragmentSpreads(out, nested);
        case Field(_, _, _, _, Absent) =>
        case InlineFragment(_, _, nested) => out := CollectFragmentSpreads(out, nested);
      }
      SpreadsTake(selections, i);
      i := i + 1;
    }
    assert selections[..i] == selections;
  }

  class CycleChecker {
    const fragments: Fragments
    var colors: map<string, Color>
    var errors: seq<string>

    constructor (fragments: Fragments)
      ensures this.fragments == fragments && Snapshot() == State(map[], [])
    {
      this.fragments := fragments;
      colors, errors := map[], [];
    }

    function Snapshot(): State
      reads this
    {
      State(colors, errors)
    }

    method VisitFragment(name: string)
      modifies this
      ensures Snapshot() == Visit(fragments, name, old(Snapshot()))
      decreases fragments.Keys - colors.Keys
    {
      if name !in fragments {
        return;
      }
      if name in colors {
        if colors[name] == Visiting {
          errors := errors + [name];
        }
        return;
      }
      colors := colors[name := Visiting];
      ghost var entered := Snapshot();
      var spreads := CollectFragmentSpreads([], fragments[name].selections);
      var i := 0;
      while i < |spreads|
        invariant 0 <= i <= |spreads|
        invariant Snapshot() == VisitAll(fragments, spreads[..i], entered)
        invariant old(colors).Keys < colors.Keys
      {
        VisitAllAppend(fragments, spreads[..i], [spreads[i]], entered);
        assert spreads[..i + 1] == spreads[..i] + [spreads[i]];
        VisitFragment(spreads[i]);
        i := i + 1;
      }
      assert spreads[..i] == spreads;
      colors := colors[name := Done];
    }

    /** Visits every fragment in key order and leaves the reported names in `errors`. */
    method CheckAll(keys: seq<string>)
      requires Snapshot() == State(map[], [])
      requires forall f :: f in fragments <==> f in keys
      modifies this
      ensures errors == CycleErrors(fragments, keys)
      ensures errors == [] <==> Acyclic(fragments)
      ensures forall e :: e in errors ==> OnCycle(fragments, e)
    {
      ghost var start := Snapshot();
      for i := 0 to |keys|
        invariant Snapshot() == VisitAll(fragments, keys[..i], start)
      {
        VisitAllAppend(fragments, keys[..i], [keys[i]], start);
        assert keys[..i + 1] == keys[..i] + [keys[i]];
        VisitFragment(keys[i]);
      }
      assert keys[..|keys|] == keys;
      SilentIffAcyclic(fragments, keys);
      ReportedFragmentsLieOnCycles(fragments, keys);
    }
  }
}
