/**
 When a variable may be used where another type is expected: the structural test
 and its meaning as inclusion of values.
 */
module VariableTypes {
  import opened Schema

  /** The structural test: non-null may be dropped from the variable's type but
      not added to it, at every level of list nesting. */
  predicate Compatible(variable: TypeRef, location: TypeRef)
    decreases variable
  {
    if location.NonNull? then variable.NonNull? && Compatible(variable.of, location.of)
    else if variable.NonNull? then Compatible(variable.of, location)
    else if location.ListOf? then variable.ListOf? && Compatible(variable.of, location.of)
    else variable == location
  }

  /** An input value: null, a leaf of a named type, or a list. */
  datatype Input = Null | LeafOf(name: string) | Items(items: seq<Input>)

  predicate HasType(x: Input, t: TypeRef)
    decreases t, x
  {
    match t
    case NonNull(of) => x != Null && HasType(x, of)
    case ListOf(of) => x == Null || (x.Items? && forall i :: 0 <= i < |x.items| ==> HasType(x.items[i], of))
    case Named(name) => x == Null || x == LeafOf(name)
  }

  /** Every value of one type is a value of the other. */
  ghost predicate Included(t: TypeRef, u: TypeRef) {
    forall x :: HasType(x, t) ==> HasType(x, u)
  }

  /** A type the grammar can write: no non-null directly inside a non-null. */
  predicate WellFormed(t: TypeRef) {
    match t
    case NonNull(of) => !of.NonNull? && WellFormed(of)
    case ListOf(of) => WellFormed(of)
    case Named(_) => true
  }

  lemma {:induction false} CompatibleIncludes(variable: TypeRef, location: TypeRef, x: Input)
    requires Compatible(variable, location) && HasType(x, variable)
    ensures HasType(x, location)
    decreases variable, location
  {
    if location.NonNull? {
      CompatibleIncludes(variable.of, location.of, x);
    } else if variable.NonNull? {
      CompatibleIncludes(variable.of, location, x);
    } else if location.ListOf? && x.Items? {
      forall i | 0 <= i < |x.items| ensures HasType(x.items[i], location.of) {
        CompatibleIncludes(variable.of, location.of, x.items[i]);
      }
    }
  }

  /** A value of the variable's type that the location does not admit; it is not
      null unless null itself tells the types apart. */
  lemma {:induction false} IncompatibleValue(variable: TypeRef, location: TypeRef) returns (x: Input)
    requires !Compatible(variable, location) && WellFormed(location)
    ensures HasType(x, variable) && !HasType(x, location)
    ensures !location.NonNull? ==> x != Null
    decreases variable, location
  {
    if location.NonNull? {
      if variable.NonNull? {
        x := IncompatibleValue(variable.of, location.of);
      } else {
        x := Null;
      }
    } else if variable.NonNull? {
      x := IncompatibleValue(variable.of, location);
    } else if variable.ListOf? && location.ListOf? {
      var item := IncompatibleValue(variable.of, location.of);
      x := Items([item]);
      assert !HasType(x.items[0], location.of);
    } else {
      x := if variable.ListOf? then Items([]) else LeafOf(variable.name);
    }
  }

  /** The structural test is inclusion of values. */
  lemma CompatibleIffIncluded(variable: TypeRef, location: TypeRef)
    requires WellFormed(location)
    ensures Compatible(variable, location) <==> Included(variable, location)
  {
    if Compatible(variable, location) {
      forall x | HasType(x, variable) ensures HasType(x, location) {
        CompatibleIncludes(variable, location, x);
      }
    } else {
      var x := IncompatibleValue(variable, location);
    }
  }

  /** The type with repeated non-nulls written once. */
  function Collapse(t: TypeRef): TypeRef {
    match t
    case NonNull(of) => if of.NonNull? then Collapse(of) else NonNull(Collapse(of))
    case ListOf(of) => ListOf(Collapse(of))
    case Named(_) => t
  }

  lemma {:induction false} CollapseKeepsValues(t: TypeRef, x: Input)
    ensures HasType(x, Collapse(t)) <==> HasType(x, t)
    ensures Collapse(t).NonNull? <==> t.NonNull?
    decreases t, x
  {
    match t
    case NonNull(of) => CollapseKeepsValues(of, x);
    case ListOf(of) =>
      if x.Items? {
        forall i | 0 <= i < |x.items| ensures HasType(x.items[i], Collapse(of)) <==> HasType(x.items[i], of) {
          CollapseKeepsValues(of, x.items[i]);
        }
      }
    case Named(_) =>
  }

  lemma {:induction false} CollapsedIsIncompatible(t: TypeRef)
    ensures Compatible(Collapse(t), t) <==> WellFormed(t)
    ensures Collapse(t).NonNull? <==> t.NonNull?
    ensures NonNulls(Collapse(t)) <= 1
  {
    match t
    case NonNull(of) =>
      CollapsedIsIncompatible(of);
      if of.NonNull? {
        FewerNonNulls(Collapse(of), t);
      }
    case ListOf(of) => CollapsedIsIncompatible(of);
    case Named(_) =>
  }

  /** How many non-nulls stand at the top of a type. */
  function NonNulls(t: TypeRef): nat {
    if t.NonNull? then 1 + NonNulls(t.of) else 0
  }

  lemma {:induction false} FewerNonNulls(variable: TypeRef, location: TypeRef)
    requires NonNulls(variable) <= 1
    ensures NonNulls(location) >= 2 ==> !Compatible(variable, location)
  {
    if NonNulls(location) >= 2 && variable.NonNull? {
      assert NonNulls(variable.of) == 0 && NonNulls(location.of) >= 1;
      assert !Compatible(variable.of, location.of);
    }
  }

  /** The test decides inclusion for every variable type exactly when the
      location's type is well formed. */
  lemma ExactIffWellFormed(location: TypeRef)
    ensures WellFormed(location) <==> forall v :: Compatible(v, location) <==> Included(v, location)
  {
    if WellFormed(location) {
      forall v ensures Compatible(v, location) <==> Included(v, location) {
        CompatibleIffIncluded(v, location);
      }
    } else {
      var v := Collapse(location);
      CollapsedIsIncompatible(location);
      forall x ensures HasType(x, v) <==> HasType(x, location) {
        CollapseKeepsValues(location, x);
      }
      assert Included(v, location) && !Compatible(v, location);
    }
  }

  /** On well-formed types the test is a partial order. */
  lemma CompatibleIsTransitive(a: TypeRef, b: TypeRef, c: TypeRef)
    requires WellFormed(b) && WellFormed(c) && Compatible(a, b) && Compatible(b, c)
    ensures Compatible(a, c)
  {
    CompatibleIffIncluded(a, b);
    CompatibleIffIncluded(b, c);
    CompatibleIffIncluded(a, c);
  }

  lemma {:induction false} CompatibleIsAntisymmetric(a: TypeRef, b: TypeRef)
    requires WellFormed(a) && WellFormed(b) && Compatible(a, b) && Compatible(b, a)
    ensures a == b
    decreases a
  {
    if a.NonNull? && b.NonNull? {
      CompatibleIsAntisymmetric(a.of, b.of);
    } else if a.ListOf? && b.ListOf? {
      CompatibleIsAntisymmetric(a.of, b.of);
    }
  }

  /** A variable may be non-null where null is allowed and not the other way round, at
      every depth; lists and single values do not stand for each other, and names must be
      the same. */
  lemma CompatibilityByShape(t: string, u: string)
    ensures Compatible(Named(t), Named(u)) <==> t == u
    ensures Compatible(NonNull(Named(t)), Named(t)) && !Compatible(Named(t), NonNull(Named(t)))
    ensures Compatible(ListOf(NonNull(Named(t))), ListOf(Named(t)))
    ensures !Compatible(ListOf(Named(t)), ListOf(NonNull(Named(t))))
    ensures Compatible(NonNull(ListOf(NonNull(Named(t)))), ListOf(Named(t)))
    ensures !Compatible(ListOf(Named(t)), Named(t)) && !Compatible(Named(t), ListOf(Named(t)))
  {
    assert Compatible(NonNull(Named(t)), Named(t));
    assert !Compatible(Named(t), NonNull(Named(t)));
  }
}
