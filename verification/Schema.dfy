/**
 The compiled schema the validator reads: type references, field tables,
 possible object types and the two type relations of field merging.
 */
module Schema {
  import opened Values

  datatype TypeRef = Named(name: string) | ListOf(of: TypeRef) | NonNull(of: TypeRef)

  datatype Kind = SCALAR | ENUM | OBJECT | INTERFACE | UNION | INPUT_OBJECT

  /** A compiled output field: its type and its optional cost annotations. */
  datatype FieldDef = FieldDef(typ: TypeRef, cost: Option<nat>, listSize: Option<nat>)

  datatype TypeInfo = TypeInfo(kind: Kind, fields: map<string, FieldDef>)

  datatype RawSchema = RawSchema(types: map<string, TypeInfo>, possibleTypes: map<string, seq<string>>)

  predicate IsAbstract(s: RawSchema, name: string) {
    name in s.types && (s.types[name].kind == INTERFACE || s.types[name].kind == UNION)
  }

  /** The compiler lists only object types as possible types of an abstract type. */
  ghost predicate PossibleTypesAreObjects(s: RawSchema) {
    forall a, i :: IsAbstract(s, a) && a in s.possibleTypes && 0 <= i < |s.possibleTypes[a]|
                   ==> !IsAbstract(s, s.possibleTypes[a][i])
  }

  type CompiledSchema = s: RawSchema | PossibleTypesAreObjects(s) witness RawSchema(map[], map[])

  function NamedType(t: TypeRef): string {
    match t
    case Named(name) => name
    case ListOf(of) => NamedType(of)
    case NonNull(of) => NamedType(of)
  }

  /** The compiled type of a field, or None when the parent type or the field is
      not in the compiled tables (introspection fields are not). */
  function FieldType(s: CompiledSchema, parent: string, field: string): Option<TypeRef> {
    if parent in s.types && field in s.types[parent].fields
    then Some(s.types[parent].fields[field].typ) else None
  }

  predicate IsLeaf(s: CompiledSchema, name: string) {
    name in s.types && (s.types[name].kind == SCALAR || s.types[name].kind == ENUM)
  }

  /** The object types a runtime value of type `name` may have. */
  function PossibleObjects(s: CompiledSchema, name: string): set<string>
    decreases IsAbstract(s, name)
  {
    if name !in s.types then {}
    else if s.types[name].kind == OBJECT then {name}
    else if IsAbstract(s, name) && name in s.possibleTypes then
      set i, o | 0 <= i < |s.possibleTypes[name]| && o in PossibleObjects(s, s.possibleTypes[name][i]) :: o
    else {}
  }

  predicate TypesOverlap(s: CompiledSchema, left: string, right: string) {
    left == right || PossibleObjects(s, left) * PossibleObjects(s, right) != {}
  }

  /** Whether two compiled field types give responses of the same shape. */
  predicate SameResponseShape(s: CompiledSchema, left: TypeRef, right: TypeRef) {
    match (left, right)
    case (NonNull(l), NonNull(r)) => SameResponseShape(s, l, r)
    case (ListOf(l), ListOf(r)) => SameResponseShape(s, l, r)
    case (Named(l), Named(r)) =>
      if IsLeaf(s, l) || IsLeaf(s, r) then IsLeaf(s, l) && IsLeaf(s, r) && l == r else true
    case _ => false
  }

  /** The response shape itself: list and non-null structure around either a
      named leaf or an anonymous composite. */
  datatype Shape = LeafShape(name: string) | CompositeShape | ListShape(of: Shape) | NonNullShape(of: Shape)

  function ShapeOf(s: CompiledSchema, t: TypeRef): Shape {
    match t
    case NonNull(of) => NonNullShape(ShapeOf(s, of))
    case ListOf(of) => ListShape(ShapeOf(s, of))
    case Named(name) => if IsLeaf(s, name) then LeafShape(name) else CompositeShape
  }

  lemma {:induction false} SameResponseShapeIffSameShape(s: CompiledSchema, left: TypeRef, right: TypeRef)
    ensures SameResponseShape(s, left, right) <==> ShapeOf(s, left) == ShapeOf(s, right)
  {
    if (left.NonNull? && right.NonNull?) || (left.ListOf? && right.ListOf?) {
      SameResponseShapeIffSameShape(s, left.of, right.of);
    }
  }
}
