/**
 What it means for a selection list to merge: every two occurrences of a
 response key are compatible and, below them, their two selection lists merge
 together. The program never looks at pairs below a key; it merges all of a
 key's selection lists at once. The two readings agree.
 */
module FieldMerging {
  import opened Values
  import opened Schema
  import opened Document
  import opened FieldCollection

  function EntryType(s: CompiledSchema, e: Entry): Option<TypeRef> {
    FieldType(s, e.parent, e.field.name)
  }

  /** The test applied to two fields with one response key. A field without a
      compiled type is compatible with nothing, itself included. */
  predicate Compatible(s: CompiledSchema, a: Entry, b: Entry) {
    && EntryType(s, a).Some? && EntryType(s, b).Some?
    && SameResponseShape(s, EntryType(s, a).value, EntryType(s, b).value)
    && (TypesOverlap(s, a.parent, b.parent) ==>
          a.field.name == b.field.name && ArgumentsEqual(a.field.arguments, b.field.arguments))
  }

  predicate HasSelections(s: CompiledSchema, e: Entry) {
    e.field.sub.Present? && EntryType(s, e).Some?
  }

  function SubType(s: CompiledSchema, e: Entry): string
    requires HasSelections(s, e)
  {
    NamedType(EntryType(s, e).value)
  }

  /** A field's selection list as an inline fragment on the field's named type. */
  function AsInline(s: CompiledSchema, e: Entry): Selection
    requires HasSelections(s, e)
  {
    InlineFragment(Some(SubType(s, e)), [], e.field.sub.selections)
  }

  /** `a` and `b` are two occurrences; equal ones must occur twice. */
  ghost predicate Both<T>(a: T, b: T, m: multiset<T>) {
    multiset{a, b} <= m
  }

  /** The pairwise specification of field merging, `depth` levels down. */
  ghost predicate MergeableTo(s: CompiledSchema, fragments: Fragments, selections: seq<Selection>, parent: string,
                              depth: nat)
    decreases depth
  {
    forall a, b :: Both(a, b, Occurrences(fragments, selections, parent)) && ResponseKey(a) == ResponseKey(b) ==>
      && Compatible(s, a, b)
      && (depth > 0 && HasSelections(s, a) && HasSelections(s, b) ==>
            MergeableTo(s, fragments, [AsInline(s, a), AsInline(s, b)], SubType(s, a), depth - 1))
  }

  /** The pairwise specification of field merging: to every depth, on whatever fragments. */
  ghost predicate Mergeable(s: CompiledSchema, fragments: Fragments, selections: seq<Selection>, parent: string) {
    forall depth: nat :: MergeableTo(s, fragments, selections, parent, depth)
  }

  ghost predicate PairMerges(s: CompiledSchema, fragments: Fragments, a: Entry, b: Entry) {
    && Compatible(s, a, b)
    && (HasSelections(s, a) && HasSelections(s, b) ==>
          Mergeable(s, fragments, [AsInline(s, a), AsInline(s, b)], SubType(s, a)))
  }

  /** A selection list merges exactly when every two occurrences of a key do. */
  lemma MergeableIffPairsMerge(s: CompiledSchema, fragments: Fragments, selections: seq<Selection>, parent: string)
    ensures Mergeable(s, fragments, selections, parent) <==>
            forall a, b :: Both(a, b, Occurrences(fragments, selections, parent))
                           && ResponseKey(a) == ResponseKey(b) ==>
              PairMerges(s, fragments, a, b)
  {
    if Mergeable(s, fragments, selections, parent) {
      forall a, b | Both(a, b, Occurrences(fragments, selections, parent)) && ResponseKey(a) == ResponseKey(b)
        ensures PairMerges(s, fragments, a, b)
      {
        MergeablePair(s, fragments, selections, parent, a, b);
      }
    }
    if forall a, b :: Both(a, b, Occurrences(fragments, selections, parent)) && ResponseKey(a) == ResponseKey(b) ==>
         PairMerges(s, fragments, a, b)
    {
      forall depth: nat ensures MergeableTo(s, fragments, selections, parent, depth) {
        forall a, b | Both(a, b, Occurrences(fragments, selections, parent)) && ResponseKey(a) == ResponseKey(b)
          ensures Compatible(s, a, b)
          ensures depth > 0 && HasSelections(s, a) && HasSelections(s, b) ==>
                    MergeableTo(s, fragments, [AsInline(s, a), AsInline(s, b)], SubType(s, a), depth - 1)
        {
          assert PairMerges(s, fragments, a, b);
        }
      }
    }
  }

  lemma MergeablePair(s: CompiledSchema, fragments: Fragments, selections: seq<Selection>, parent: string, a: Entry,
                      b: Entry)
    requires Mergeable(s, fragments, selections, parent)
    requires Both(a, b, Occurrences(fragments, selections, parent)) && ResponseKey(a) == ResponseKey(b)
    ensures PairMerges(s, fragments, a, b)
  {
    assert MergeableTo(s, fragments, selections, parent, 0);
    if HasSelections(s, a) && HasSelections(s, b) {
      forall depth: nat
        ensures MergeableTo(s, fragments, [AsInline(s, a), AsInline(s, b)], SubType(s, a), depth)
      {
        assert MergeableTo(s, fragments, selections, parent, depth + 1);
      }
    }
  }

  lemma {:induction false} FieldOfSome(fragments: Fragments, names: set<string>, e: Entry) returns (f: string)
    requires names <= fragments.Keys && e in FieldsOfAll(fragments, names)
    ensures f in names && e in FragmentFields(fragments, f)
    decreases names
  {
    f :| f in names
         && FieldsOfAll(fragments, names) == FragmentFields(fragments, f) + FieldsOfAll(fragments, names - {f});
    if e !in FragmentFields(fragments, f) {
      f := FieldOfSome(fragments, names - {f}, e);
    }
  }

  // ----- Occurrences of a list of selections and of two of them -----

  lemma MergeableByOccurrences(s: CompiledSchema, fragments: Fragments, xs: seq<Selection>, p: string,
                               ys: seq<Selection>, q: string)
    requires Occurrences(fragments, xs, p) == Occurrences(fragments, ys, q)
    ensures Mergeable(s, fragments, xs, p) <==> Mergeable(s, fragments, ys, q)
  {
    MergeableIffPairsMerge(s, fragments, xs, p);
    MergeableIffPairsMerge(s, fragments, ys, q);
  }

  lemma LevelReachBySpreads(fragments: Fragments, xs: seq<Selection>, ys: seq<Selection>)
    requires LevelSpreads(fragments, xs) <= LevelSpreads(fragments, ys)
    ensures LevelReach(fragments, xs) <= LevelReach(fragments, ys)
  {
    forall f | f in LevelReach(fragments, xs) ensures f in LevelReach(fragments, ys) {
      var p :| SpreadPath(fragments, xs, p) && p[|p| - 1] == f;
      assert SpreadPath(fragments, ys, p);
    }
  }

  lemma PairParts(fragments: Fragments, x: Selection, y: Selection, parent: string)
    ensures multiset(Direct([x, y], parent)) == multiset(DirectOf(x, parent)) + multiset(DirectOf(y, parent))
    ensures LevelSpreads(fragments, [x, y]) == LevelSpreadsOf(fragments, x) + LevelSpreadsOf(fragments, y)
  {
    assert [x, y][1..] == [y];
    OnePart(fragments, y, parent);
    MultisetOfConcat(DirectOf(x, parent), DirectOf(y, parent));
  }

  lemma OnePart(fragments: Fragments, x: Selection, parent: string)
    ensures Direct([x], parent) == DirectOf(x, parent)
    ensures LevelSpreads(fragments, [x]) == LevelSpreadsOf(fragments, x)
  {
    assert [x][1..] == [];
  }

  lemma {:induction false} ListParts(fragments: Fragments, xs: seq<Selection>, parent: string, i: nat)
    requires i < |xs|
    ensures multiset(DirectOf(xs[i], parent)) <= multiset(Direct(xs, parent))
    ensures LevelSpreadsOf(fragments, xs[i]) <= LevelSpreads(fragments, xs)
  {
    MultisetOfConcat(DirectOf(xs[0], parent), Direct(xs[1..], parent));
    if i > 0 {
      ListParts(fragments, xs[1..], parent, i - 1);
    }
  }

  lemma {:induction false} ListTwoParts(fragments: Fragments, xs: seq<Selection>, parent: string, i: nat, j: nat)
    requires i < j < |xs|
    ensures multiset(DirectOf(xs[i], parent)) + multiset(DirectOf(xs[j], parent)) <= multiset(Direct(xs, parent))
  {
    var first, rest := multiset(DirectOf(xs[0], parent)), multiset(Direct(xs[1..], parent));
    MultisetOfConcat(DirectOf(xs[0], parent), Direct(xs[1..], parent));
    if i > 0 {
      ListTwoParts(fragments, xs[1..], parent, i - 1, j - 1);
      WithinSum(multiset(DirectOf(xs[i], parent)) + multiset(DirectOf(xs[j], parent)), rest, first);
    } else {
      ListParts(fragments, xs[1..], parent, j - 1);
      WithinSum(multiset(DirectOf(xs[j], parent)), rest, first);
    }
  }

  lemma WithinSum<T>(m: multiset<T>, n: multiset<T>, more: multiset<T>)
    requires m <= n
    ensures m <= more + n && more + m <= more + n
  {
  }

  lemma PairWithinList(fragments: Fragments, xs: seq<Selection>, parent: string, i: nat, j: nat)
    requires i < j < |xs|
    ensures Occurrences(fragments, [xs[i], xs[j]], parent) <= Occurrences(fragments, xs, parent)
  {
    PairParts(fragments, xs[i], xs[j], parent);
    ListTwoParts(fragments, xs, parent, i, j);
    ListParts(fragments, xs, parent, i);
    ListParts(fragments, xs, parent, j);
    LevelReachBySpreads(fragments, [xs[i], xs[j]], xs);
    FieldsOfSubset(fragments, LevelReach(fragments, [xs[i], xs[j]]), LevelReach(fragments, xs));
  }

  lemma PairOccurrencesSwap(fragments: Fragments, x: Selection, y: Selection, parent: string)
    ensures Occurrences(fragments, [x, y], parent) == Occurrences(fragments, [y, x], parent)
  {
    PairParts(fragments, x, y, parent);
    PairParts(fragments, y, x, parent);
    LevelReachBySpreads(fragments, [x, y], [y, x]);
    LevelReachBySpreads(fragments, [y, x], [x, y]);
    assert LevelReach(fragments, [x, y]) == LevelReach(fragments, [y, x]);
  }

  lemma PairSwaps(s: CompiledSchema, fragments: Fragments, x: Selection, y: Selection, parent: string)
    ensures Mergeable(s, fragments, [x, y], parent) <==> Mergeable(s, fragments, [y, x], parent)
  {
    PairOccurrencesSwap(fragments, x, y, parent);
    MergeableByOccurrences(s, fragments, [x, y], parent, [y, x], parent);
  }

  ghost predicate AllTyped(xs: seq<Selection>) {
    forall x :: x in xs ==> x.InlineFragment? && x.on.Some?
  }

  /** Inline fragments with a type condition do not depend on the type around them. */
  lemma {:induction false} TypedIgnoresParent(fragments: Fragments, xs: seq<Selection>, p: string, q: string)
    requires AllTyped(xs)
    ensures Direct(xs, p) == Direct(xs, q)
    ensures Occurrences(fragments, xs, p) == Occurrences(fragments, xs, q)
  {
    if xs != [] {
      assert xs[0] in xs;
      TypedIgnoresParent(fragments, xs[1..], p, q);
    }
  }

  // ----- Two occurrences come from at most two of the listed selections -----

  lemma SplitBoth<T>(a: T, b: T, x: multiset<T>, y: multiset<T>)
    requires Both(a, b, x + y)
    ensures Both(a, b, x) || Both(a, b, y) || (a in x && b in y) || (b in x && a in y)
  {
    if a == b {
      assert multiset{a, b}[a] == 2;
      assert Both(a, b, x) <==> x[a] >= 2;
      assert Both(a, b, y) <==> y[a] >= 2;
      assert (x + y)[a] == x[a] + y[a];
    } else {
      assert multiset{a, b}[a] == 1 && multiset{a, b}[b] == 1;
      assert a in x + y && b in x + y;
    }
  }

  lemma BothAtIndices<T>(xs: seq<T>, i: nat, j: nat)
    requires i < j < |xs|
    ensures Both(xs[i], xs[j], multiset(xs))
  {
    var front, back := xs[..j], xs[j..];
    assert xs == front + back;
    MultisetOfConcat(front, back);
    assert front[i] in front && back[0] in back;
    BothFromParts(xs[i], xs[j], multiset(front), multiset(back));
  }

  lemma {:induction false} IndicesOfBoth<T>(xs: seq<T>, a: T, b: T) returns (i: nat, j: nat)
    requires Both(a, b, multiset(xs))
    ensures i < j < |xs| && ((xs[i] == a && xs[j] == b) || (xs[i] == b && xs[j] == a))
  {
    assert a in multiset{a, b} && b in multiset{a, b};
    assert a in xs && b in xs;
    var n := |xs| - 1;
    assert xs == xs[..n] + [xs[n]];
    if Both(a, b, multiset(xs[..n])) {
      i, j := IndicesOfBoth(xs[..n], a, b);
    } else {
      SplitBoth(a, b, multiset(xs[..n]), multiset{xs[n]});
      var other := if b == xs[n] then a else b;
      i :| 0 <= i < n && xs[..n][i] == other;
      j := n;
    }
  }

  ghost predicate DirectFrom(xs: seq<Selection>, parent: string, i: nat, j: nat, a: Entry, b: Entry) {
    && i < |xs| && j < |xs|
    && (if i == j then Both(a, b, multiset(DirectOf(xs[i], parent)))
        else a in DirectOf(xs[i], parent) && b in DirectOf(xs[j], parent))
  }

  lemma {:induction false} DirectOrigin(xs: seq<Selection>, parent: string, a: Entry) returns (i: nat)
    requires a in Direct(xs, parent)
    ensures i < |xs| && a in DirectOf(xs[i], parent)
  {
    if a in DirectOf(xs[0], parent) {
      i := 0;
    } else {
      i := DirectOrigin(xs[1..], parent, a);
      i := i + 1;
    }
  }

  lemma DirectAt(xs: seq<Selection>, parent: string, p: nat)
    requires p < |Direct(xs, parent)|
    ensures xs != []
    ensures var n := |DirectOf(xs[0], parent)|;
            if p < n then Direct(xs, parent)[p] == DirectOf(xs[0], parent)[p]
            else p - n < |Direct(xs[1..], parent)| && Direct(xs, parent)[p] == Direct(xs[1..], parent)[p - n]
  {
  }

  lemma {:induction false} DirectOrigins(xs: seq<Selection>, parent: string, p: nat, q: nat, a: Entry, b: Entry)
    returns (i: nat, j: nat)
    requires p < q < |Direct(xs, parent)| && Direct(xs, parent)[p] == a && Direct(xs, parent)[q] == b
    ensures DirectFrom(xs, parent, i, j, a, b)
  {
    var n := |DirectOf(xs[0], parent)|;
    DirectAt(xs, parent, p);
    DirectAt(xs, parent, q);
    if q < n {
      i, j := 0, 0;
      BothAtIndices(DirectOf(xs[0], parent), p, q);
    } else if p < n {
      j := DirectOrigin(xs[1..], parent, b);
      MixedOrigin(xs, parent, j, a, b);
      i, j := 0, j + 1;
    } else {
      i, j := DirectOrigins(xs[1..], parent, p - n, q - n, a, b);
      ShiftOrigin(xs, parent, i, j, a, b);
      i, j := i + 1, j + 1;
    }
  }

  lemma MixedOrigin(xs: seq<Selection>, parent: string, j: nat, a: Entry, b: Entry)
    requires xs != [] && a in DirectOf(xs[0], parent) && j < |xs[1..]| && b in DirectOf(xs[1..][j], parent)
    ensures DirectFrom(xs, parent, 0, j + 1, a, b)
  {
    assert xs[1..][j] == xs[j + 1];
  }

  lemma ShiftOrigin(xs: seq<Selection>, parent: string, i: nat, j: nat, a: Entry, b: Entry)
    requires xs != [] && DirectFrom(xs[1..], parent, i, j, a, b)
    ensures DirectFrom(xs, parent, i + 1, j + 1, a, b)
  {
    assert xs[1..][i] == xs[i + 1] && xs[1..][j] == xs[j + 1];
  }

  /** Two occurrences among fragments come from at most two of the fragments. */
  lemma {:induction false} FragmentOrigins(fragments: Fragments, names: set<string>, a: Entry, b: Entry)
    returns (f: string, g: string)
    requires names <= fragments.Keys && Both(a, b, FieldsOfAll(fragments, names))
    ensures f in names && g in names
    ensures Both(a, b, FieldsOfAll(fragments, {f, g}))
    decreases names
  {
    var k := SplitFragment(fragments, names, a, b);
    var x, y := FragmentFields(fragments, k), FieldsOfAll(fragments, names - {k});
    SplitBoth(a, b, x, y);
    if Both(a, b, x) {
      f, g := k, k;
      FieldsOfInsert(fragments, {f, g}, f);
    } else if Both(a, b, y) {
      f, g := FragmentOrigins(fragments, names - {k}, a, b);
    } else if a in x && b in y {
      f := k;
      g := FieldOfSome(fragments, names - {k}, b);
      BothOfTwo(fragments, f, g, a, b);
    } else {
      f := k;
      g := FieldOfSome(fragments, names - {k}, a);
      BothOfTwo(fragments, f, g, b, a);
    }
  }

  lemma SplitFragment(fragments: Fragments, names: set<string>, a: Entry, b: Entry) returns (f: string)
    requires names <= fragments.Keys && Both(a, b, FieldsOfAll(fragments, names))
    ensures f in names
    ensures FieldsOfAll(fragments, names) == FragmentFields(fragments, f) + FieldsOfAll(fragments, names - {f})
  {
    assert a in multiset{a, b};
    assert a in FieldsOfAll(fragments, names);
    f :| f in names
         && FieldsOfAll(fragments, names) == FragmentFields(fragments, f) + FieldsOfAll(fragments, names - {f});
  }

  lemma BothOfTwo(fragments: Fragments, f: string, g: string, a: Entry, b: Entry)
    requires f in fragments && g in fragments && f != g
    requires a in FragmentFields(fragments, f) && b in FragmentFields(fragments, g)
    ensures Both(a, b, FieldsOfAll(fragments, {f, g})) && Both(b, a, FieldsOfAll(fragments, {f, g}))
  {
    TwoFragments(fragments, f, g);
    BothFromParts(a, b, FragmentFields(fragments, f), FragmentFields(fragments, g));
    BothWithin(a, b, FieldsOfAll(fragments, {f, g}), FieldsOfAll(fragments, {f, g}));
  }

  lemma TwoFragments(fragments: Fragments, f: string, g: string)
    requires f in fragments && g in fragments && f != g
    ensures FieldsOfAll(fragments, {f, g}) == FragmentFields(fragments, f) + FragmentFields(fragments, g)
  {
    FieldsOfInsert(fragments, {f, g}, f);
    assert {f, g} - {f} == {g};
    FieldsOfInsert(fragments, {g}, g);
    assert {g} - {g} == {};
  }

  /** A reachable fragment is reached from one of the listed selections. */
  lemma ReachOrigin(fragments: Fragments, xs: seq<Selection>, f: string) returns (i: nat)
    requires f in LevelReach(fragments, xs)
    ensures i < |xs| && f in LevelReach(fragments, [xs[i]])
  {
    var p :| SpreadPath(fragments, xs, p) && p[|p| - 1] == f;
    i := SpreadOrigin(fragments, xs, p[0]);
    assert [xs[i]][1..] == [];
    assert SpreadPath(fragments, [xs[i]], p);
  }

  lemma {:induction false} SpreadOrigin(fragments: Fragments, xs: seq<Selection>, f: string) returns (i: nat)
    requires f in LevelSpreads(fragments, xs)
    ensures i < |xs| && f in LevelSpreadsOf(fragments, xs[i])
  {
    if f in LevelSpreadsOf(fragments, xs[0]) {
      i := 0;
    } else {
      i := SpreadOrigin(fragments, xs[1..], f);
      i := i + 1;
    }
  }

  /** Everything selection `k` of a pair contributes is in the pair's occurrences. */
  lemma PairContains(fragments: Fragments, x: Selection, y: Selection, parent: string)
    ensures multiset(DirectOf(x, parent)) + multiset(DirectOf(y, parent))
            + FieldsOfAll(fragments, LevelReach(fragments, [x, y]))
            == Occurrences(fragments, [x, y], parent)
    ensures LevelReach(fragments, [x]) + LevelReach(fragments, [y]) <= LevelReach(fragments, [x, y])
  {
    PairParts(fragments, x, y, parent);
    assert [x][1..] == [] && [y][1..] == [];
    LevelReachBySpreads(fragments, [x], [x, y]);
    LevelReachBySpreads(fragments, [y], [x, y]);
  }

  lemma WidenToPair(i: nat, j: nat, n: nat) returns (s: nat, t: nat)
    requires i < n && j < n && n >= 2
    ensures s < t < n && (i == s || i == t) && (j == s || j == t)
  {
    if i < j { s, t := i, j; }
    else if j < i { s, t := j, i; }
    else if i > 0 { s, t := 0, i; }
    else { s, t := 0, 1; }
  }

  lemma FieldsWithin(fragments: Fragments, f: string, names: set<string>, a: Entry)
    requires f in names && names <= fragments.Keys && a in FragmentFields(fragments, f)
    ensures a in FieldsOfAll(fragments, names)
  {
    FieldsOfInsert(fragments, names, f);
  }

  ghost predicate CoveredBy(fragments: Fragments, xs: seq<Selection>, parent: string, a: Entry, b: Entry, i: nat,
                            j: nat) {
    i < j < |xs| && Both(a, b, Occurrences(fragments, [xs[i], xs[j]], parent))
  }

  lemma BothWithin<T>(a: T, b: T, m: multiset<T>, n: multiset<T>)
    requires Both(a, b, m) && m <= n
    ensures Both(a, b, n) && Both(b, a, n)
  {
    assert multiset{a, b} == multiset{b, a};
  }

  lemma DirectPairCovered(fragments: Fragments, xs: seq<Selection>, parent: string, a: Entry, b: Entry)
    returns (i: nat, j: nat)
    requires |xs| >= 2 && Both(a, b, multiset(Direct(xs, parent)))
    ensures CoveredBy(fragments, xs, parent, a, b, i, j)
  {
    var p, q := IndicesOfBoth(Direct(xs, parent), a, b);
    var c, d := Direct(xs, parent)[p], Direct(xs, parent)[q];
    var k, l := DirectOrigins(xs, parent, p, q, c, d);
    i, j := WidenToPair(k, l, |xs|);
    var x, y := multiset(DirectOf(xs[k], parent)), multiset(DirectOf(xs[l], parent));
    PairContains(fragments, xs[i], xs[j], parent);
    if k == l {
      BothWithin(c, d, x, Occurrences(fragments, [xs[i], xs[j]], parent));
    } else {
      BothFromParts(c, d, x, y);
      BothWithin(c, d, x + y, Occurrences(fragments, [xs[i], xs[j]], parent));
    }
  }

  lemma SpreadPairCovered(fragments: Fragments, xs: seq<Selection>, parent: string, a: Entry, b: Entry)
    returns (i: nat, j: nat)
    requires |xs| >= 2 && Both(a, b, FieldsOfAll(fragments, LevelReach(fragments, xs)))
    ensures CoveredBy(fragments, xs, parent, a, b, i, j)
  {
    var f, g := FragmentOrigins(fragments, LevelReach(fragments, xs), a, b);
    var k := ReachOrigin(fragments, xs, f);
    var l := ReachOrigin(fragments, xs, g);
    i, j := WidenToPair(k, l, |xs|);
    PairContains(fragments, xs[i], xs[j], parent);
    PairOfFragments(fragments, xs[i], xs[j], parent, a, b, f, g);
  }

  lemma PairOfFragments(fragments: Fragments, x: Selection, y: Selection, parent: string, a: Entry, b: Entry, f: string,
                        g: string)
    requires f in fragments && g in fragments && Both(a, b, FieldsOfAll(fragments, {f, g}))
    requires f in LevelReach(fragments, [x, y]) && g in LevelReach(fragments, [x, y])
    ensures Both(a, b, Occurrences(fragments, [x, y], parent))
  {
    var reach := LevelReach(fragments, [x, y]);
    PairContains(fragments, x, y, parent);
    FieldsOfSubset(fragments, {f, g}, reach);
    BothWithin(a, b, FieldsOfAll(fragments, {f, g}), FieldsOfAll(fragments, reach));
    BothWithin(a, b, FieldsOfAll(fragments, reach), Occurrences(fragments, [x, y], parent));
  }

  lemma MixedPairCovered(fragments: Fragments, xs: seq<Selection>, parent: string, a: Entry, b: Entry)
    returns (i: nat, j: nat)
    requires |xs| >= 2 && a in Direct(xs, parent) && b in FieldsOfAll(fragments, LevelReach(fragments, xs))
    ensures CoveredBy(fragments, xs, parent, a, b, i, j)
  {
    var k := DirectOrigin(xs, parent, a);
    var f := FieldOfSome(fragments, LevelReach(fragments, xs), b);
    var l := ReachOrigin(fragments, xs, f);
    i, j := WidenToPair(k, l, |xs|);
    var reach := LevelReach(fragments, [xs[i], xs[j]]);
    PairContains(fragments, xs[i], xs[j], parent);
    FieldsWithin(fragments, f, reach, b);
    BothFromParts(a, b, multiset(DirectOf(xs[k], parent)), FieldsOfAll(fragments, reach));
    BothWithin(a, b, multiset(DirectOf(xs[k], parent)) + FieldsOfAll(fragments, reach),
               Occurrences(fragments, [xs[i], xs[j]], parent));
  }

  lemma PairCovers(fragments: Fragments, xs: seq<Selection>, parent: string, a: Entry, b: Entry)
    returns (i: nat, j: nat)
    requires |xs| >= 2 && Both(a, b, Occurrences(fragments, xs, parent))
    ensures CoveredBy(fragments, xs, parent, a, b, i, j)
  {
    var x, y := multiset(Direct(xs, parent)), FieldsOfAll(fragments, LevelReach(fragments, xs));
    SplitBoth(a, b, x, y);
    if Both(a, b, x) {
      i, j := DirectPairCovered(fragments, xs, parent, a, b);
    } else if Both(a, b, y) {
      i, j := SpreadPairCovered(fragments, xs, parent, a, b);
    } else if a in x && b in y {
      i, j := MixedPairCovered(fragments, xs, parent, a, b);
    } else {
      i, j := MixedPairCovered(fragments, xs, parent, b, a);
      BothWithin(b, a, Occurrences(fragments, [xs[i], xs[j]], parent), Occurrences(fragments, [xs[i], xs[j]], parent));
    }
  }

  lemma BothFromParts<T>(a: T, b: T, x: multiset<T>, y: multiset<T>)
    requires a in x && b in y
    ensures Both(a, b, x + y)
  {
  }

  /** Merging n selection lists at once is merging every two of them. */
  lemma AllAtOnceIsPairwise(s: CompiledSchema, fragments: Fragments, xs: seq<Selection>, parent: string)
    requires |xs| >= 2
    ensures Mergeable(s, fragments, xs, parent) <==>
            forall i, j :: 0 <= i < j < |xs| ==> Mergeable(s, fragments, [xs[i], xs[j]], parent)
  {
    MergeableIffPairsMerge(s, fragments, xs, parent);
    if Mergeable(s, fragments, xs, parent) {
      forall i, j | 0 <= i < j < |xs| ensures Mergeable(s, fragments, [xs[i], xs[j]], parent) {
        PairWithinList(fragments, xs, parent, i, j);
        MergeableIffPairsMerge(s, fragments, [xs[i], xs[j]], parent);
      }
    }
    if forall i, j :: 0 <= i < j < |xs| ==> Mergeable(s, fragments, [xs[i], xs[j]], parent) {
      forall a, b | Both(a, b, Occurrences(fragments, xs, parent)) && ResponseKey(a) == ResponseKey(b)
        ensures PairMerges(s, fragments, a, b)
      {
        var i, j := PairCovers(fragments, xs, parent, a, b);
        MergeablePair(s, fragments, [xs[i], xs[j]], parent, a, b);
      }
    }
  }

  lemma RepeatedFieldOccurrences(fragments: Fragments, parent: string, f: FieldSelection)
    ensures Occurrences(fragments, [f, f], parent) == multiset{Entry(f, parent), Entry(f, parent)}
  {
    var e := Entry(f, parent);
    var one, two := [f], [f, f];
    assert two[1..] == one && one[1..] == [];
    assert Direct(one, parent) == [e] && Direct(two, parent) == [e, e];
    assert LevelSpreads(fragments, one) == {};
    assert LevelReach(fragments, two) == {};
  }

  /** A field merges with its own repetition exactly when the schema types it and, if
      it has selections, those merge when repeated. A repeated `__typename` or
      `__schema { ... }`, which no type declares, is always a conflict. */
  lemma RepeatedFieldMergesIffTyped(s: CompiledSchema, fragments: Fragments, parent: string, f: FieldSelection)
    ensures var e := Entry(f, parent);
            Mergeable(s, fragments, [f, f], parent) <==>
            && FieldType(s, parent, f.name).Some?
            && (f.sub.Present? ==> Mergeable(s, fragments, [AsInline(s, e), AsInline(s, e)], SubType(s, e)))
  {
    var e := Entry(f, parent);
    RepeatedFieldOccurrences(fragments, parent, f);
    MergeableIffPairsMerge(s, fragments, [f, f], parent);
    forall a, b | Both(a, b, multiset{e, e}) ensures a == e && b == e {
      assert a in multiset{a, b} && b in multiset{a, b};
    }
    assert Both(e, e, Occurrences(fragments, [f, f], parent));
    assert Mergeable(s, fragments, [f, f], parent) <==> PairMerges(s, fragments, e, e);
    CompatibleWithItself(s, e);
  }

  lemma CompatibleWithItself(s: CompiledSchema, e: Entry)
    ensures Compatible(s, e, e) <==> EntryType(s, e).Some?
  {
    ArgumentsEqualIffSameNormalForm(e.field.arguments, e.field.arguments);
    if EntryType(s, e).Some? {
      SameResponseShapeIffSameShape(s, EntryType(s, e).value, EntryType(s, e).value);
    }
  }
}
