/**
 Documents on which comparing merged sub-selections terminates: those whose
 fragments do not spread themselves through a field, among others.
 */
module Layering {
  import opened Document
  import FragmentCycles

  function Max(a: nat, b: nat): nat {
    if a < b then b else a
  }

  /** The field nesting of a selection list, when `h` bounds that of each fragment. */
  function Height(h: map<string, nat>, selections: seq<Selection>): nat {
    if selections == [] then 0 else Max(HeightOf(h, selections[0]), Height(h, selections[1..]))
  }

  function HeightOf(h: map<string, nat>, selection: Selection): nat {
    match selection
    case Field(_, _, _, _, Absent) => 1
    case Field(_, _, _, _, Present(nested)) => 1 + Height(h, nested)
    case InlineFragment(_, _, nested) => Height(h, nested)
    case FragmentSpread(name, _) => if name in h then h[name] else 0
  }

  ghost predicate Bounds(fragments: Fragments, h: map<string, nat>) {
    forall f :: f in fragments ==> f in h && Height(h, fragments[f].selections) <= h[f]
  }

  ghost predicate Layered(fragments: Fragments) {
    exists h :: Bounds(fragments, h)
  }

  ghost function Heights(fragments: Fragments): (h: map<string, nat>)
    requires Layered(fragments)
    ensures Bounds(fragments, h)
  {
    var h :| Bounds(fragments, h); h
  }

  /** The field nesting of a selection list with its fragments filled in. */
  ghost function Depth(fragments: Fragments, selections: seq<Selection>): nat
    requires Layered(fragments)
  {
    Height(Heights(fragments), selections)
  }

  lemma {:induction false} HeightAgrees(g: map<string, nat>, h: map<string, nat>, selections: seq<Selection>)
    requires forall n :: n in Spreads(selections) ==> (n in g <==> n in h) && (n in g ==> g[n] == h[n])
    ensures Height(g, selections) == Height(h, selections)
  {
    if selections != [] {
      assert Spreads(selections) == SpreadsIn(selections[0]) + Spreads(selections[1..]);
      assert forall n :: n in SpreadsIn(selections[0]) ==> n in Spreads(selections);
      HeightAgrees(g, h, selections[1..]);
      match selections[0]
      case Field(_, _, _, _, Present(nested)) => HeightAgrees(g, h, nested);
      case InlineFragment(_, _, nested) => HeightAgrees(g, h, nested);
      case Field(_, _, _, _, Absent) =>
      case FragmentSpread(name, _) => assert name in Spreads(selections);
    }
  }

  lemma {:induction false} HeightAtLeast(h: map<string, nat>, selections: seq<Selection>, i: nat)
    requires i < |selections|
    ensures HeightOf(h, selections[i]) <= Height(h, selections)
  {
    if i > 0 {
      HeightAtLeast(h, selections[1..], i - 1);
    }
  }

  /** Heights for the fragments of a finishing order, built front to back. */
  lemma {:induction false} HeightsAlong(fragments: Fragments, order: seq<string>) returns (h: map<string, nat>)
    requires FragmentCycles.FinishingOrder(fragments, order, [])
    ensures h.Keys == (set f | f in order && f in fragments)
    ensures forall f :: f in h ==> Height(h, fragments[f].selections) <= h[f]
  {
    if order == [] {
      h := map[];
    } else {
      var n := |order| - 1;
      var earlier, last := order[..n], order[n];
      forall k, g | 0 <= k < n && FragmentCycles.Edge(fragments, earlier[k], g) ensures g in earlier[..k] {
        FragmentCycles.SpreadsEarlier(fragments, order, k, g);
        assert earlier[..k] == order[..k];
      }
      var h0 := HeightsAlong(fragments, earlier);
      h := h0;
      if last in fragments && last !in h0 {
        h := h0[last := Height(h0, fragments[last].selections)];
        forall f | f in h ensures Height(h, fragments[f].selections) <= h[f] {
          forall g | g in Spreads(fragments[f].selections)
            ensures (g in h <==> g in h0) && (g in h0 ==> h[g] == h0[g])
          {
            if g in fragments {
              assert FragmentCycles.Edge(fragments, f, g);
              var k: nat :| k < |order| && order[k] == f && (f == last ==> k == n) && (f != last ==> k < n);
              FragmentCycles.SpreadsEarlier(fragments, order, k, g);
              assert g in earlier;
            }
          }
          HeightAgrees(h, h0, fragments[f].selections);
        }
      }
      assert h.Keys == set f | f in order && f in fragments;
    }
  }

  /** A document the cycle check accepts is layered. */
  lemma AcyclicIsLayered(fragments: Fragments)
    requires FragmentCycles.Acyclic(fragments)
    ensures Layered(fragments)
  {
    var order := FragmentCycles.AcyclicHasOrder(fragments);
    var h := HeightsAlong(fragments, order);
    assert Bounds(fragments, h);
  }
}
