/**
 Which documents are layered: those in which no cycle of spreads passes through a
 field. Fragments that merely spread each other in a ring are layered.
 */
module FieldCycles {
  import opened Document
  import opened Layering
  import opened FragmentCycles

  /** The spreads below some field of a selection list. */
  function FieldSpreads(selections: seq<Selection>): set<string> {
    if selections == [] then {} else FieldSpreadsOf(selections[0]) + FieldSpreads(selections[1..])
  }

  function FieldSpreadsOf(selection: Selection): set<string> {
    match selection
    case Field(_, _, _, _, Absent) => {}
    case Field(_, _, _, _, Present(nested)) => set f | f in Spreads(nested)
    case InlineFragment(_, _, nested) => FieldSpreads(nested)
    case FragmentSpread(_, _) => {}
  }

  ghost predicate FieldEdge(fragments: Fragments, from: string, to: string) {
    from in fragments && to in fragments && to in FieldSpreads(fragments[from].selections)
  }

  /** A path of spreads, one of them below a field. */
  ghost predicate FieldPath(fragments: Fragments, p: seq<string>) {
    |p| >= 2 && IsPath(fragments, p) && exists i :: 0 <= i < |p| - 1 && FieldEdge(fragments, p[i], p[i + 1])
  }

  ghost predicate FieldCycle(fragments: Fragments, p: seq<string>) {
    FieldPath(fragments, p) && p[0] == p[|p| - 1]
  }

  ghost predicate Through(fragments: Fragments, f: string, g: string) {
    exists p :: FieldPath(fragments, p) && p[0] == f && p[|p| - 1] == g
  }

  lemma {:induction false} FieldSpreadsAreSpreads(selections: seq<Selection>, f: string)
    requires f in FieldSpreads(selections)
    ensures f in Spreads(selections)
  {
    assert Spreads(selections) == SpreadsIn(selections[0]) + Spreads(selections[1..]);
    if f in FieldSpreads(selections[1..]) {
      FieldSpreadsAreSpreads(selections[1..], f);
    } else {
      match selections[0]
      case InlineFragment(_, _, nested) => FieldSpreadsAreSpreads(nested, f);
      case _ =>
    }
  }

  // ----- Layered documents have no cycle through a field -----

  lemma {:induction false} SpreadHeight(h: map<string, nat>, selections: seq<Selection>, f: string)
    requires f in h && f in Spreads(selections)
    ensures h[f] <= Height(h, selections)
  {
    assert Spreads(selections) == SpreadsIn(selections[0]) + Spreads(selections[1..]);
    if f in Spreads(selections[1..]) {
      SpreadHeight(h, selections[1..], f);
    } else {
      match selections[0]
      case Field(_, _, _, _, Present(nested)) => SpreadHeight(h, nested, f);
      case InlineFragment(_, _, nested) => SpreadHeight(h, nested, f);
      case FragmentSpread(_, _) =>
    }
  }

  lemma {:induction false} FieldSpreadHeight(h: map<string, nat>, selections: seq<Selection>, f: string)
    requires f in h && f in FieldSpreads(selections)
    ensures h[f] < Height(h, selections)
  {
    if f in FieldSpreads(selections[1..]) {
      FieldSpreadHeight(h, selections[1..], f);
    } else {
      match selections[0]
      case Field(_, _, _, _, Present(nested)) => SpreadHeight(h, nested, f);
      case InlineFragment(_, _, nested) => FieldSpreadHeight(h, nested, f);
    }
  }

  lemma PathTail(fragments: Fragments, p: seq<string>)
    requires |p| > 2 && IsPath(fragments, p)
    ensures IsPath(fragments, p[1..])
    ensures FieldPath(fragments, p) ==> FieldEdge(fragments, p[0], p[1]) || FieldPath(fragments, p[1..])
  {
    var q := p[1..];
    forall i | 0 <= i < |q| - 1 ensures Edge(fragments, q[i], q[i + 1]) {
      assert Edge(fragments, p[i + 1], p[i + 1 + 1]);
    }
    if FieldPath(fragments, p) {
      var i :| 0 <= i < |p| - 1 && FieldEdge(fragments, p[i], p[i + 1]);
      if i > 0 {
        assert FieldEdge(fragments, q[i - 1], q[i - 1 + 1]);
      }
    }
  }

  lemma {:induction false} PathDescends(fragments: Fragments, h: map<string, nat>, p: seq<string>)
    requires Bounds(fragments, h) && |p| >= 2 && IsPath(fragments, p)
    ensures p[0] in h && p[|p| - 1] in h && h[p[|p| - 1]] <= h[p[0]]
    ensures FieldPath(fragments, p) ==> h[p[|p| - 1]] < h[p[0]]
    decreases |p|
  {
    assert Edge(fragments, p[0], p[1]);
    var body := fragments[p[0]].selections;
    SpreadHeight(h, body, p[1]);
    if FieldEdge(fragments, p[0], p[1]) {
      FieldSpreadHeight(h, body, p[1]);
    }
    if |p| > 2 {
      PathTail(fragments, p);
      PathDescends(fragments, h, p[1..]);
    }
  }

  // ----- Without such a cycle there are heights -----

  /** The fragments reached from `f` through a field. */
  ghost function Beyond(fragments: Fragments, f: string): set<string> {
    set g | g in fragments && Through(fragments, f, g)
  }

  lemma BeyondAlongEdge(fragments: Fragments, f: string, g: string)
    requires Edge(fragments, f, g)
    ensures Beyond(fragments, g) <= Beyond(fragments, f)
    ensures FieldEdge(fragments, f, g) ==> g in Beyond(fragments, f)
  {
    forall x | x in Beyond(fragments, g) ensures Through(fragments, f, x) {
      var p :| FieldPath(fragments, p) && p[0] == g && p[|p| - 1] == x;
      var i :| 0 <= i < |p| - 1 && FieldEdge(fragments, p[i], p[i + 1]);
      var q := [f] + p;
      assert FieldEdge(fragments, q[i + 1], q[i + 2]);
      assert FieldPath(fragments, q) && q[0] == f && q[|q| - 1] == x;
    }
    if FieldEdge(fragments, f, g) {
      var q := [f, g];
      assert FieldEdge(fragments, q[0], q[1]);
      assert FieldPath(fragments, q) && q[|q| - 1] == g;
    }
  }

  /** A bound on the field nesting of every fragment by itself. */
  lemma {:induction false} NestingBound(fragments: Fragments) returns (m: nat)
    ensures m > 0 && forall f :: f in fragments ==> Height(map[], fragments[f].selections) < m
    decreases |fragments|
  {
    if fragments == map[] {
      m := 1;
    } else {
      var f :| f in fragments;
      var smaller := fragments - {f};
      assert smaller.Keys == fragments.Keys - {f};
      assert |smaller| == |smaller.Keys| < |fragments.Keys| == |fragments|;
      m := NestingBound(smaller);
      m := Max(m, Height(map[], fragments[f].selections) + 1);
      assert forall g :: g in fragments ==> g == f || (g in smaller && smaller[g] == fragments[g]);
    }
  }

  /** With every spread at most `bound` less the list's own nesting, the list is no
      higher than `bound`. */
  lemma {:induction false} HeightOfSpreads(h: map<string, nat>, selections: seq<Selection>, bound: nat)
    requires forall g :: g in Spreads(selections) && g in h ==> h[g] + Height(map[], selections) <= bound
    requires Height(map[], selections) <= bound
    ensures Height(h, selections) <= bound
  {
    if selections != [] {
      assert Spreads(selections) == SpreadsIn(selections[0]) + Spreads(selections[1..]);
      HeightOfSpreads(h, selections[1..], bound);
      match selections[0]
      case Field(_, _, _, _, Present(nested)) => HeightOfSpreads(h, nested, bound - 1);
      case InlineFragment(_, _, nested) => HeightOfSpreads(h, nested, bound);
      case Field(_, _, _, _, Absent) =>
      case FragmentSpread(name, _) => assert name in SpreadsIn(selections[0]);
    }
  }

  /** The same when only the spreads below fields leave room for the nesting. */
  lemma {:induction false} HeightOfLayers(h: map<string, nat>, selections: seq<Selection>, bound: nat)
    requires forall g :: g in Spreads(selections) && g in h ==> h[g] <= bound
    requires forall g :: g in FieldSpreads(selections) && g in h ==> h[g] + Height(map[], selections) <= bound
    requires Height(map[], selections) <= bound
    ensures Height(h, selections) <= bound
  {
    if selections != [] {
      assert Spreads(selections) == SpreadsIn(selections[0]) + Spreads(selections[1..]);
      HeightOfLayers(h, selections[1..], bound);
      match selections[0]
      case Field(_, _, _, _, Present(nested)) =>
        assert forall g :: g in Spreads(nested) ==> g in FieldSpreadsOf(selections[0]);
        HeightOfSpreads(h, nested, bound - 1);
      case InlineFragment(_, _, nested) =>
        assert FieldSpreads(nested) <= FieldSpreads(selections);
        assert Height(map[], nested) <= Height(map[], selections);
        HeightOfLayers(h, nested, bound);
      case Field(_, _, _, _, Absent) =>
      case FragmentSpread(name, _) => assert name in SpreadsIn(selections[0]);
    }
  }

  lemma FragmentHeight(fragments: Fragments, m: nat, h: map<string, nat>, f: string)
    requires m > 0 && f in fragments && Height(map[], fragments[f].selections) < m
    requires forall p :: !FieldCycle(fragments, p)
    requires h.Keys == fragments.Keys && forall g :: g in fragments ==> h[g] == m * (|Beyond(fragments, g)| + 1)
    ensures Height(h, fragments[f].selections) <= h[f]
  {
    var body := fragments[f].selections;
    Product(m, |Beyond(fragments, f)| + 1, 1);
    forall g | g in Spreads(body) && g in h
      ensures h[g] <= h[f]
      ensures g in FieldSpreads(body) ==> h[g] + Height(map[], body) <= h[f]
    {
      SpreadFits(fragments, m, f, g);
    }
    forall g | g in FieldSpreads(body) && g in h ensures g in Spreads(body) {
      FieldSpreadsAreSpreads(body, g);
    }
    HeightOfLayers(h, body, h[f]);
  }

  lemma SpreadFits(fragments: Fragments, m: nat, f: string, g: string)
    requires m > 0 && f in fragments && g in fragments && g in Spreads(fragments[f].selections)
    requires forall p :: !FieldCycle(fragments, p)
    ensures m * (|Beyond(fragments, g)| + 1) <= m * (|Beyond(fragments, f)| + 1)
    ensures g in FieldSpreads(fragments[f].selections) ==>
              m * (|Beyond(fragments, g)| + 1) + m <= m * (|Beyond(fragments, f)| + 1)
  {
    var far, near := |Beyond(fragments, f)|, |Beyond(fragments, g)|;
    FewerBeyond(fragments, f, g);
    Product(m, far + 1, near + 1);
    if g in FieldSpreads(fragments[f].selections) {
      Product(m, far + 1, near + 2);
      Distribute(m, near + 1);
    }
  }

  lemma FewerBeyond(fragments: Fragments, f: string, g: string)
    requires f in fragments && g in fragments && g in Spreads(fragments[f].selections)
    requires forall p :: !FieldCycle(fragments, p)
    ensures |Beyond(fragments, g)| <= |Beyond(fragments, f)|
    ensures g in FieldSpreads(fragments[f].selections) ==> |Beyond(fragments, g)| < |Beyond(fragments, f)|
  {
    assert Edge(fragments, f, g);
    BeyondAlongEdge(fragments, f, g);
    Smaller(Beyond(fragments, g), Beyond(fragments, f));
    if g in FieldSpreads(fragments[f].selections) {
      assert FieldEdge(fragments, f, g);
      NotBeyondItself(fragments, g);
      Smaller(Beyond(fragments, g) + {g}, Beyond(fragments, f));
    }
  }

  lemma Distribute(m: nat, a: nat)
    ensures m * (a + 1) == m * a + m
  {
  }

  lemma Product(m: nat, a: nat, b: nat)
    requires b <= a
    ensures m * b <= m * a
  {
  }

  lemma Smaller(a: set<string>, b: set<string>)
    requires a <= b
    ensures |a| <= |b|
  {
    assert b == a + (b - a);
  }

  lemma NotBeyondItself(fragments: Fragments, g: string)
    requires forall p :: !FieldCycle(fragments, p)
    ensures g !in Beyond(fragments, g)
  {
    if Through(fragments, g, g) {
      var p :| FieldPath(fragments, p) && p[0] == g && p[|p| - 1] == g;
      assert FieldCycle(fragments, p);
    }
  }

  /** A document is layered exactly when no cycle of spreads passes through a field. */
  lemma LayeredIffNoFieldCycle(fragments: Fragments)
    ensures Layered(fragments) <==> forall p :: !FieldCycle(fragments, p)
  {
    if Layered(fragments) {
      var h := Heights(fragments);
      forall p ensures !FieldCycle(fragments, p) {
        if FieldCycle(fragments, p) {
          PathDescends(fragments, h, p);
        }
      }
    }
    if forall p :: !FieldCycle(fragments, p) {
      var m := NestingBound(fragments);
      var h := map f | f in fragments :: m * (|Beyond(fragments, f)| + 1);
      forall f | f in fragments ensures f in h && Height(h, fragments[f].selections) <= h[f] {
        FragmentHeight(fragments, m, h, f);
      }
      assert Bounds(fragments, h);
    }
  }
}
