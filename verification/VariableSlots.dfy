/**
 Prepared variables in two forms, a hash by name and an array of slots in
 definition order, and values that refer to them by name or by slot.
 */
module VariableSlots {
  import opened Values

  /** A payload value: literals with variable references. A reference carries its
      name and, once bound, its definition index (-1 when there is none). */
  datatype Dynamic =
    | DUndef
    | DScalar(value: Value)
    | DVariable(name: string, index: int)
    | DList(items: seq<Dynamic>)
    | DObject(entries: map<string, Dynamic>)

  /** A variable definition: its input type, and its default in coerced form and
      as written. */
  datatype VariableDef = VariableDef(name: string, typ: string, nonNull: bool,
                                     nativeDefault: Option<Value>, rawDefault: Option<Value>)

  /** Input coercion by type name: an uninterpreted deterministic function that may fail. */
  type Coercion = (string, Value) -> Option<Value>

  type Hash = map<string, Value>

  type Slots = seq<Option<Value>>

  // ----- Binding names to definition indexes -----

  /** The first definition with the given name, or -1. */
  function IndexOf(defs: seq<VariableDef>, name: string): (i: int)
    ensures -1 <= i < |defs|
    ensures i >= 0 ==> defs[i].name == name
    ensures i == -1 ==> forall j :: 0 <= j < |defs| ==> defs[j].name != name
  {
    if defs == [] then -1
    else if defs[0].name == name then 0
    else
      var i := IndexOf(defs[1..], name);
      if i == -1 then -1 else i + 1
  }

  function Bind(d: Dynamic, defs: seq<VariableDef>): Dynamic {
    match d
    case DVariable(name, _) => DVariable(name, IndexOf(defs, name))
    case DList(items) => DList(seq(|items|, i requires 0 <= i < |items| => Bind(items[i], defs)))
    case DObject(entries) => DObject(map k | k in entries :: Bind(entries[k], defs))
    case _ => d
  }

  // ----- Evaluation -----

  /** The prepared value a variable reference stands for: through its slot when it
      has one in range, otherwise by name; None when it was not provided. */
  function Prepared(name: string, index: int, hash: Option<Hash>, slots: Option<Slots>): Option<Value> {
    if slots.Some? && 0 <= index < |slots.value| then slots.value[index]
    else if hash.Some? && name in hash.value then Some(hash.value[name])
    else None
  }

  predicate Truthy(v: Value) {
    match v
    case Undef => false
    case Int(n) => n != 0
    case Float(text) => text != "0"
    case Str(text) => text != "" && text != "0"
    case Bool(b) => b
    case _ => true
  }

  /** The truth of a guard expression. */
  predicate DynamicTruthy(d: Dynamic, hash: Option<Hash>, slots: Option<Slots>) {
    match d
    case DUndef => false
    case DVariable(name, index) =>
      var p := Prepared(name, index, hash, slots);
      p.Some? && Truthy(p.value)
    case DList(_) => true
    case DObject(_) => true
    case DScalar(v) => Truthy(v)
  }

  /** The value of a payload, variables looked up by name; missing ones are null. */
  function Materialize(d: Dynamic, hash: Option<Hash>): Value {
    match d
    case DUndef => Undef
    case DVariable(name, _) => if hash.Some? && name in hash.value then hash.value[name] else Undef
    case DList(items) => List(seq(|items|, i requires 0 <= i < |items| => Materialize(items[i], hash)))
    case DObject(entries) => Object(map k | k in entries :: Materialize(entries[k], hash))
    case DScalar(v) => v
  }

  datatype GuardKind = Skip | Include

  datatype Guard = Guard(kind: GuardKind, expr: Dynamic)

  /** Whether a list of guards lets its selection through. */
  predicate GuardsPass(guards: seq<Guard>, hash: Option<Hash>, slots: Option<Slots>) {
    forall i :: 0 <= i < |guards| ==> (DynamicTruthy(guards[i].expr, hash, slots) <==> guards[i].kind == Include)
  }

  method EvaluateGuards(guards: seq<Guard>, hash: Option<Hash>, slots: Option<Slots>) returns (pass: bool)
    ensures pass == GuardsPass(guards, hash, slots)
  {
    for i := 0 to |guards|
      invariant forall j :: 0 <= j < i ==> (DynamicTruthy(guards[j].expr, hash, slots) <==> guards[j].kind == Include)
    {
      var value := DynamicTruthy(guards[i].expr, hash, slots);
      if guards[i].kind == Skip && value {
        return false;
      }
      if guards[i].kind == Include && !value {
        return false;
      }
    }
    return true;
  }

  // ----- What guards let through -----

  /** `@include(if: $x)` by name passes exactly when the variable was provided with a
      value that is none of null, false, zero, the empty string and "0". */
  lemma IncludedByVariable(x: string, index: int, hash: Hash)
    ensures GuardsPass([Guard(Include, DVariable(x, index))], Some(hash), None) <==>
            x in hash && hash[x] !in {Undef, Bool(false), Int(0), Float("0"), Str(""), Str("0")}
    ensures !GuardsPass([Guard(Include, DVariable(x, index))], None, None)
  {
    OneGuard(DVariable(x, index), Some(hash), None);
    OneGuard(DVariable(x, index), None, None);
  }

  /** `@skip(if: $x)` passes exactly when it does not. */
  lemma SkippedByVariable(x: string, index: int, hash: Hash)
    ensures GuardsPass([Guard(Skip, DVariable(x, index))], Some(hash), None) <==>
            x !in hash || hash[x] in {Undef, Bool(false), Int(0), Float("0"), Str(""), Str("0")}
    ensures GuardsPass([Guard(Skip, DVariable(x, index))], None, None)
  {
    OneGuard(DVariable(x, index), Some(hash), None);
    OneGuard(DVariable(x, index), None, None);
  }

  /** A reference with a slot in range is decided by the slot, whatever the hash holds. */
  lemma GuardedBySlot(x: string, i: nat, hash: Option<Hash>, slots: Slots)
    requires i < |slots|
    ensures GuardsPass([Guard(Include, DVariable(x, i))], hash, Some(slots)) <==>
            slots[i].Some? && slots[i].value !in {Undef, Bool(false), Int(0), Float("0"), Str(""), Str("0")}
    ensures GuardsPass([Guard(Skip, DVariable(x, i))], hash, Some(slots)) <==>
            slots[i].None? || slots[i].value in {Undef, Bool(false), Int(0), Float("0"), Str(""), Str("0")}
  {
    OneGuard(DVariable(x, i), hash, Some(slots));
  }

  /** The same for what is written in the guard itself: lists and objects count as true. */
  lemma GuardedByLiteral(v: Value, items: seq<Dynamic>, entries: map<string, Dynamic>, hash: Option<Hash>,
                         slots: Option<Slots>)
    ensures GuardsPass([Guard(Include, DScalar(v))], hash, slots) <==>
            v !in {Undef, Bool(false), Int(0), Float("0"), Str(""), Str("0")}
    ensures GuardsPass([Guard(Skip, DScalar(v))], hash, slots) <==>
            v in {Undef, Bool(false), Int(0), Float("0"), Str(""), Str("0")}
    ensures !GuardsPass([Guard(Include, DUndef)], hash, slots) && GuardsPass([Guard(Skip, DUndef)], hash, slots)
    ensures GuardsPass([Guard(Include, DList(items))], hash, slots)
            && !GuardsPass([Guard(Skip, DList(items))], hash, slots)
    ensures GuardsPass([Guard(Include, DObject(entries))], hash, slots)
    ensures !GuardsPass([Guard(Skip, DObject(entries))], hash, slots)
  {
    OneGuard(DScalar(v), hash, slots);
    OneGuard(DUndef, hash, slots);
    OneGuard(DList(items), hash, slots);
    OneGuard(DObject(entries), hash, slots);
  }

  lemma OneGuard(expr: Dynamic, hash: Option<Hash>, slots: Option<Slots>)
    ensures GuardsPass([Guard(Include, expr)], hash, slots) <==> DynamicTruthy(expr, hash, slots)
    ensures GuardsPass([Guard(Skip, expr)], hash, slots) <==> !DynamicTruthy(expr, hash, slots)
  {
    assert [Guard(Include, expr)][0] == Guard(Include, expr);
    assert [Guard(Skip, expr)][0] == Guard(Skip, expr);
  }

  /** All guards must let it through. */
  lemma GuardsTogether(a: seq<Guard>, b: seq<Guard>, hash: Option<Hash>, slots: Option<Slots>)
    ensures GuardsPass(a + b, hash, slots) <==> GuardsPass(a, hash, slots) && GuardsPass(b, hash, slots)
    ensures GuardsPass([], hash, slots)
  {
    assert forall i :: 0 <= i < |a| ==> (a + b)[i] == a[i];
    assert forall i :: 0 <= i < |b| ==> (a + b)[|a| + i] == b[i];
  }

  // ----- Preparation -----

  /** What preparing one variable yields. */
  datatype Outcome = Omitted | Got(value: Value) | Failed

  function FromCoercion(r: Option<Value>): Outcome {
    if r.Some? then Got(r.value) else Failed
  }

  /** A provided value, null included, is coerced; else the default applies; else
      the variable is omitted, unless its type is non-null. */
  function PrepareOne(def: VariableDef, provided: Hash, coerce: Coercion): Outcome {
    if def.name in provided then FromCoercion(coerce(def.typ, provided[def.name]))
    else if def.nativeDefault.Some? then Got(def.nativeDefault.value)
    else if def.rawDefault.Some? then FromCoercion(coerce(def.typ, def.rawDefault.value))
    else if def.nonNull then Failed
    else Omitted
  }

  ghost predicate UniqueNames(defs: seq<VariableDef>) {
    forall i, j :: 0 <= i < j < |defs| ==> defs[i].name != defs[j].name
  }

  ghost predicate Prepares(defs: seq<VariableDef>, provided: Hash, coerce: Coercion) {
    forall i :: 0 <= i < |defs| ==> PrepareOne(defs[i], provided, coerce) != Failed
  }

  /** The slots in definition order. */
  ghost function AllSlots(defs: seq<VariableDef>, provided: Hash, coerce: Coercion): (s: Slots)
    ensures |s| == |defs|
  {
    seq(|defs|, i requires 0 <= i < |defs| =>
      match PrepareOne(defs[i], provided, coerce)
      case Got(v) => Some(v)
      case _ => None)
  }

  /** The prepared hash: the value of every prepared definition, and provided
      entries without a definition as they are. */
  ghost predicate IsPreparedHash(hash: Hash, defs: seq<VariableDef>, provided: Hash, coerce: Coercion) {
    && (forall i :: 0 <= i < |defs| ==>
          match PrepareOne(defs[i], provided, coerce)
          case Got(v) => defs[i].name in hash && hash[defs[i].name] == v
          case _ => defs[i].name !in hash)
    && (forall n :: (forall i :: 0 <= i < |defs| ==> defs[i].name != n) ==>
          (n in hash <==> n in provided) && (n in hash ==> hash[n] == provided[n]))
  }

  // ----- What preparation gives a variable -----

  /** What a variable was provided with, null included, is coerced, whatever its defaults
      are; when that is rejected, preparation fails. */
  lemma ProvidedIsCoerced(defs: seq<VariableDef>, i: nat, provided: Hash, coerce: Coercion)
    requires i < |defs| && defs[i].name in provided
    ensures coerce(defs[i].typ, provided[defs[i].name]).None? ==> !Prepares(defs, provided, coerce)
    ensures Prepares(defs, provided, coerce) ==>
              AllSlots(defs, provided, coerce)[i] == coerce(defs[i].typ, provided[defs[i].name])
    ensures Prepares(defs, provided, coerce) ==>
              forall hash :: IsPreparedHash(hash, defs, provided, coerce) ==>
                defs[i].name in hash && Some(hash[defs[i].name]) == coerce(defs[i].typ, provided[defs[i].name])
  {
    assert Prepares(defs, provided, coerce) ==> PrepareOne(defs[i], provided, coerce) != Failed;
  }

  /** A variable not provided has its coerced default, or else its written one coerced. */
  lemma DefaultIsTaken(defs: seq<VariableDef>, i: nat, provided: Hash, coerce: Coercion)
    requires i < |defs| && defs[i].name !in provided && (defs[i].nativeDefault.Some? || defs[i].rawDefault.Some?)
    ensures var default := if defs[i].nativeDefault.Some? then defs[i].nativeDefault
                           else coerce(defs[i].typ, defs[i].rawDefault.value);
            && (default.None? ==> !Prepares(defs, provided, coerce))
            && (Prepares(defs, provided, coerce) ==>
                  && AllSlots(defs, provided, coerce)[i] == default
                  && forall hash :: IsPreparedHash(hash, defs, provided, coerce) ==>
                       defs[i].name in hash && Some(hash[defs[i].name]) == default)
  {
    assert Prepares(defs, provided, coerce) ==> PrepareOne(defs[i], provided, coerce) != Failed;
  }

  /** Neither provided nor defaulted, it is absent, or makes preparation fail where its
      type is non-null. */
  lemma OmittedIsAbsent(defs: seq<VariableDef>, i: nat, provided: Hash, coerce: Coercion)
    requires i < |defs| && defs[i].name !in provided && defs[i].nativeDefault.None? && defs[i].rawDefault.None?
    ensures defs[i].nonNull ==> !Prepares(defs, provided, coerce)
    ensures !defs[i].nonNull ==> AllSlots(defs, provided, coerce)[i] == None
    ensures !defs[i].nonNull ==>
              forall hash :: IsPreparedHash(hash, defs, provided, coerce) ==> defs[i].name !in hash
  {
    assert Prepares(defs, provided, coerce) ==> PrepareOne(defs[i], provided, coerce) != Failed;
  }

  /** Preparation fails for no other reason. */
  lemma PreparesIff(defs: seq<VariableDef>, provided: Hash, coerce: Coercion)
    ensures Prepares(defs, provided, coerce) <==>
            forall i :: 0 <= i < |defs| ==>
              if defs[i].name in provided then coerce(defs[i].typ, provided[defs[i].name]).Some?
              else if defs[i].nativeDefault.Some? then true
              else if defs[i].rawDefault.Some? then coerce(defs[i].typ, defs[i].rawDefault.value).Some?
              else !defs[i].nonNull
  {
  }

  /** `query ($n: Int = 5)` with `{"n": null}` prepares null, and without it 5. */
  lemma NullIsNotDefaulted(coerce: Coercion)
    requires coerce("Int", Undef) == Some(Undef)
    ensures var defs := [VariableDef("n", "Int", false, Some(Int(5)), None)];
            && Prepares(defs, map["n" := Undef], coerce) && AllSlots(defs, map["n" := Undef], coerce) == [Some(Undef)]
            && Prepares(defs, map[], coerce) && AllSlots(defs, map[], coerce) == [Some(Int(5))]
  {
    var defs := [VariableDef("n", "Int", false, Some(Int(5)), None)];
    PreparesIff(defs, map["n" := Undef], coerce);
    PreparesIff(defs, map[], coerce);
    ProvidedIsCoerced(defs, 0, map["n" := Undef], coerce);
    DefaultIsTaken(defs, 0, map[], coerce);
  }

  /** Coerces every variable, into the slot array as far as it reaches and, unless
      only slots are wanted, into a hash; None when a variable is rejected. */
  method PrepareVariables(defs: seq<VariableDef>, provided: Hash, coerce: Coercion,
                          slots: array<Option<Value>>, slotsOnly: bool) returns (r: Option<Hash>)
    requires UniqueNames(defs)
    requires forall i :: 0 <= i < slots.Length ==> slots[i] == None
    modifies slots
    ensures r.Some? <==> Prepares(defs, provided, coerce)
    ensures r.Some? ==> forall i :: 0 <= i < slots.Length ==>
              slots[i] == if i < |defs| then AllSlots(defs, provided, coerce)[i] else None
    ensures r.Some? && !slotsOnly ==> IsPreparedHash(r.value, defs, provided, coerce)
  {
    var coerced: Hash := map[];
    for i := 0 to |defs|
      invariant forall j :: 0 <= j < i ==> PrepareOne(defs[j], provided, coerce) != Failed
      invariant forall j :: 0 <= j < slots.Length ==>
                  slots[j] == if j < i then AllSlots(defs, provided, coerce)[j] else None
      invariant !slotsOnly ==> PreparedUpTo(coerced, defs, i, provided, coerce)
    {
      var def := defs[i];
      var raw: Option<Value> := None;
      var value: Option<Value> := None;
      if def.name in provided {
        raw := Some(provided[def.name]);
      } else if def.nativeDefault.Some? {
        value := def.nativeDefault;
      } else if def.rawDefault.Some? {
        raw := def.rawDefault;
      }
      if raw.None? && value.None? {
        if def.nonNull {
          return None;
        }
      } else {
        if value.None? {
          value := coerce(def.typ, raw.value);
          if value.None? {
            return None;
          }
        }
        if !slotsOnly {
          coerced := coerced[def.name := value.value];
        }
        if i < slots.Length {
          slots[i] := value;
        }
      }
    }
    if !slotsOnly {
      coerced := AddUndeclared(coerced, provided);
    }
    return Some(coerced);
  }

  /** Copies every provided entry whose name is still free. */
  method AddUndeclared(coerced: Hash, provided: Hash) returns (hash: Hash)
    ensures hash.Keys == coerced.Keys + provided.Keys
    ensures forall n :: n in hash ==> hash[n] == if n in coerced then coerced[n] else provided[n]
  {
    hash := coerced;
    var extras := provided.Keys;
    while extras != {}
      invariant extras <= provided.Keys
      invariant hash.Keys == coerced.Keys + (provided.Keys - extras)
      invariant forall n :: n in hash ==> hash[n] == if n in coerced then coerced[n] else provided[n]
      decreases extras
    {
      var n :| n in extras;
      extras := extras - {n};
      if n !in hash {
        hash := hash[n := provided[n]];
      }
    }
  }

  ghost predicate PreparedUpTo(hash: Hash, defs: seq<VariableDef>, k: nat, provided: Hash, coerce: Coercion)
    requires k <= |defs|
  {
    && (forall i :: 0 <= i < k ==>
          match PrepareOne(defs[i], provided, coerce)
          case Got(v) => defs[i].name in hash && hash[defs[i].name] == v
          case _ => defs[i].name !in hash)
    && (forall n :: n in hash ==> exists i :: 0 <= i < k && defs[i].name == n)
  }

  // ----- Slots agree with names -----

  /** A bound reference finds the same value through any array of slots that is a
      prefix of the definitions' slots as by name in the prepared hash. */
  lemma BoundReferenceAgrees(name: string, defs: seq<VariableDef>, provided: Hash, coerce: Coercion, hash: Hash,
                             count: nat)
    requires UniqueNames(defs) && Prepares(defs, provided, coerce) && IsPreparedHash(hash, defs, provided, coerce)
    requires count <= |defs|
    ensures Prepared(name, IndexOf(defs, name), Some(hash), Some(AllSlots(defs, provided, coerce)[..count]))
            == Prepared(name, -1, Some(hash), None)
  {
    var i := IndexOf(defs, name);
    if 0 <= i < count {
      assert AllSlots(defs, provided, coerce)[..count][i] == AllSlots(defs, provided, coerce)[i];
    }
  }

  /** Without the hash, slots serve every declared variable. */
  lemma DeclaredReferenceNeedsNoHash(name: string, defs: seq<VariableDef>, provided: Hash, coerce: Coercion, hash: Hash)
    requires UniqueNames(defs) && Prepares(defs, provided, coerce) && IsPreparedHash(hash, defs, provided, coerce)
    ensures Prepared(name, IndexOf(defs, name), None, Some(AllSlots(defs, provided, coerce)))
            == Prepared(name, -1, Some(hash), None)
            <==> (IndexOf(defs, name) >= 0 || name !in provided)
  {
  }

  function BindGuards(guards: seq<Guard>, defs: seq<VariableDef>): (bound: seq<Guard>)
    ensures |bound| == |guards|
    ensures forall i :: 0 <= i < |guards| ==> bound[i] == Guard(guards[i].kind, Bind(guards[i].expr, defs))
  {
    seq(|guards|, i requires 0 <= i < |guards| => Guard(guards[i].kind, Bind(guards[i].expr, defs)))
  }

  /** Guards evaluate alike through slots and by name. */
  lemma GuardsAgree(guards: seq<Guard>, defs: seq<VariableDef>, provided: Hash, coerce: Coercion, hash: Hash,
                    count: nat)
    requires UniqueNames(defs) && Prepares(defs, provided, coerce) && IsPreparedHash(hash, defs, provided, coerce)
    requires count <= |defs|
    ensures GuardsPass(BindGuards(guards, defs), Some(hash), Some(AllSlots(defs, provided, coerce)[..count]))
            <==> GuardsPass(guards, Some(hash), None)
  {
    var bound := BindGuards(guards, defs);
    var slots := AllSlots(defs, provided, coerce)[..count];
    forall i | 0 <= i < |guards|
      ensures DynamicTruthy(bound[i].expr, Some(hash), Some(slots)) <==> DynamicTruthy(guards[i].expr, Some(hash), None)
    {
      if guards[i].expr.DVariable? {
        BoundReferenceAgrees(guards[i].expr.name, defs, provided, coerce, hash, count);
      }
    }
  }

  /** Binding changes no value: nested references are looked up by name. */
  lemma {:induction false} BindKeepsValue(d: Dynamic, defs: seq<VariableDef>, hash: Option<Hash>)
    ensures Materialize(Bind(d, defs), hash) == Materialize(d, hash)
    decreases d
  {
    match d
    case DList(items) =>
      forall i | 0 <= i < |items| ensures Materialize(Bind(items[i], defs), hash) == Materialize(items[i], hash) {
        BindKeepsValue(items[i], defs, hash);
      }
    case DObject(entries) =>
      forall k | k in entries ensures Materialize(Bind(entries[k], defs), hash) == Materialize(entries[k], hash) {
        BindKeepsValue(entries[k], defs, hash);
      }
    case _ =>
  }

  // ----- Slots without the hash -----

  /** Every variable a nested value refers to is null or missing. */
  predicate OnlyNulls(d: Dynamic, hash: Hash) {
    match d
    case DVariable(name, _) => name in hash ==> hash[name] == Undef
    case DList(items) => forall i :: 0 <= i < |items| ==> OnlyNulls(items[i], hash)
    case DObject(entries) => forall k :: k in entries ==> OnlyNulls(entries[k], hash)
    case _ => true
  }

  /** Without the hash a bound nested value is the same exactly when it refers to
      nothing but nulls; slots do not serve nested references. */
  lemma {:induction false} NestedNeedsHash(d: Dynamic, defs: seq<VariableDef>, hash: Hash)
    ensures Materialize(Bind(d, defs), None) == Materialize(d, Some(hash)) <==> OnlyNulls(d, hash)
    decreases d
  {
    var x, y := Materialize(Bind(d, defs), None), Materialize(d, Some(hash));
    match d
    case DList(items) =>
      forall i | 0 <= i < |items|
        ensures Materialize(Bind(items[i], defs), None) == Materialize(items[i], Some(hash)) <==>
                  OnlyNulls(items[i], hash)
        ensures x.items[i] == Materialize(Bind(items[i], defs), None) && y.items[i] == Materialize(items[i], Some(hash))
      {
        NestedNeedsHash(items[i], defs, hash);
      }
      if x == y {
        forall i | 0 <= i < |items| ensures OnlyNulls(items[i], hash) {
          assert x.items[i] == y.items[i];
        }
      }
    case DObject(entries) =>
      forall k | k in entries
        ensures Materialize(Bind(entries[k], defs), None) == Materialize(entries[k], Some(hash)) <==>
                  OnlyNulls(entries[k], hash)
        ensures x.fields[k] == Materialize(Bind(entries[k], defs), None)
                && y.fields[k] == Materialize(entries[k], Some(hash))
      {
        NestedNeedsHash(entries[k], defs, hash);
      }
      if x == y {
        forall k | k in entries ensures OnlyNulls(entries[k], hash) {
          assert x.fields[k] == y.fields[k];
        }
      }
    case _ =>
  }

  /** A guard on a variable that is provided and true but not declared. */
  predicate Unserved(g: Guard, defs: seq<VariableDef>, provided: Hash) {
    g.expr.DVariable? && IndexOf(defs, g.expr.name) < 0 && g.expr.name in provided && Truthy(provided[g.expr.name])
  }

  predicate GuardHolds(g: Guard, hash: Option<Hash>, slots: Option<Slots>) {
    DynamicTruthy(g.expr, hash, slots) <==> g.kind == Include
  }

  /** Without the hash, guards pass as they do by name exactly when no guard is unserved,
      or another one fails anyway, or unserved ones contradict each other. */
  lemma GuardsAgreeWithoutHash(guards: seq<Guard>, defs: seq<VariableDef>, provided: Hash, coerce: Coercion, hash: Hash)
    requires UniqueNames(defs) && Prepares(defs, provided, coerce) && IsPreparedHash(hash, defs, provided, coerce)
    ensures (GuardsPass(BindGuards(guards, defs), None, Some(AllSlots(defs, provided, coerce))) <==>
               GuardsPass(guards, Some(hash), None))
            <==> (|| (forall i :: 0 <= i < |guards| ==> !Unserved(guards[i], defs, provided))
                  || (exists i :: 0 <= i < |guards| && !Unserved(guards[i], defs, provided)
                                  && !GuardHolds(guards[i], Some(hash), None))
                  || (&& (exists i :: 0 <= i < |guards| && Unserved(guards[i], defs, provided)
                                      && guards[i].kind == Include)
                      && (exists i :: 0 <= i < |guards| && Unserved(guards[i], defs, provided)
                                      && guards[i].kind == Skip)))
  {
    var bound, slots := BindGuards(guards, defs), AllSlots(defs, provided, coerce);
    forall i | 0 <= i < |guards|
      ensures Unserved(guards[i], defs, provided) ==>
                (GuardHolds(guards[i], Some(hash), None) <==> guards[i].kind == Include) &&
                (GuardHolds(bound[i], None, Some(slots)) <==> guards[i].kind == Skip)
      ensures !Unserved(guards[i], defs, provided) ==>
                (GuardHolds(bound[i], None, Some(slots)) <==> GuardHolds(guards[i], Some(hash), None))
    {
      OneGuardWithoutHash(guards[i], defs, provided, coerce, hash);
    }
    assert GuardsPass(bound, None, Some(slots)) <==>
             forall i :: 0 <= i < |guards| ==> GuardHolds(bound[i], None, Some(slots));
    assert GuardsPass(guards, Some(hash), None) <==>
             forall i :: 0 <= i < |guards| ==> GuardHolds(guards[i], Some(hash), None);
  }

  /** `@include(if: $x)` in an operation that declares nothing, with `x` provided as
      true: by name the guard passes, through slots alone it does not. */
  lemma UndeclaredGuardIsLost(coerce: Coercion)
    ensures var guards, provided := [Guard(Include, DVariable("x", -1))], map["x" := Bool(true)];
            && Prepares([], provided, coerce) && IsPreparedHash(provided, [], provided, coerce)
            && GuardsPass(guards, Some(provided), None)
            && !GuardsPass(BindGuards(guards, []), None, Some(AllSlots([], provided, coerce)))
  {
    var guards := [Guard(Include, DVariable("x", -1))];
    assert BindGuards(guards, [])[0] == guards[0];
  }

  lemma OneGuardWithoutHash(g: Guard, defs: seq<VariableDef>, provided: Hash, coerce: Coercion, hash: Hash)
    requires UniqueNames(defs) && Prepares(defs, provided, coerce) && IsPreparedHash(hash, defs, provided, coerce)
    ensures var bound, slots := Guard(g.kind, Bind(g.expr, defs)), AllSlots(defs, provided, coerce);
            if Unserved(g, defs, provided)
            then DynamicTruthy(g.expr, Some(hash), None) && !DynamicTruthy(bound.expr, None, Some(slots))
            else DynamicTruthy(bound.expr, None, Some(slots)) <==> DynamicTruthy(g.expr, Some(hash), None)
  {
    if g.expr.DVariable? {
      DeclaredReferenceNeedsNoHash(g.expr.name, defs, provided, coerce, hash);
    }
  }

  // ----- Rebuilding the hash from slots -----

  /** The hash rebuilt for callbacks when only slots were prepared: slot values
      under their names, then provided entries whose name is still free. */
  method RebuildHash(defs: seq<VariableDef>, slots: Slots, provided: Hash) returns (hash: Hash)
    requires UniqueNames(defs) && |slots| == |defs|
    ensures forall i :: 0 <= i < |defs| && slots[i].Some? ==>
              defs[i].name in hash && hash[defs[i].name] == slots[i].value
    ensures forall n :: n in hash && n !in provided ==>
              exists i :: 0 <= i < |defs| && defs[i].name == n && slots[i].Some?
    ensures forall n :: n in provided && !(exists i :: 0 <= i < |defs| && defs[i].name == n && slots[i].Some?) ==>
              n in hash && hash[n] == provided[n]
  {
    hash := map[];
    for i := 0 to |defs|
      invariant forall j :: 0 <= j < i && slots[j].Some? ==>
                  defs[j].name in hash && hash[defs[j].name] == slots[j].value
      invariant forall n :: n in hash ==> exists j :: 0 <= j < i && defs[j].name == n && slots[j].Some?
    {
      if slots[i].Some? {
        hash := hash[defs[i].name := slots[i].value];
      }
    }
    hash := AddUndeclared(hash, provided);
  }

  /** Any hash as RebuildHash makes it from the prepared slots is the prepared hash. */
  lemma RebuiltHashIsPrepared(defs: seq<VariableDef>, provided: Hash, coerce: Coercion, hash: Hash, prepared: Hash)
    requires UniqueNames(defs) && Prepares(defs, provided, coerce) && IsPreparedHash(prepared, defs, provided, coerce)
    requires var slots := AllSlots(defs, provided, coerce);
             && (forall i :: 0 <= i < |defs| && slots[i].Some? ==>
                   defs[i].name in hash && hash[defs[i].name] == slots[i].value)
             && (forall n :: n in hash && n !in provided ==>
                   exists i :: 0 <= i < |defs| && defs[i].name == n && slots[i].Some?)
             && (forall n :: n in provided && !(exists i :: 0 <= i < |defs| && defs[i].name == n && slots[i].Some?) ==>
                   n in hash && hash[n] == provided[n])
    ensures hash == prepared
  {
    var slots := AllSlots(defs, provided, coerce);
    forall n ensures (n in hash <==> n in prepared) && (n in hash ==> hash[n] == prepared[n]) {
      var i := IndexOf(defs, n);
      if i >= 0 {
        assert forall j :: 0 <= j < |defs| && defs[j].name == n ==> j == i;
        if slots[i].None? {
          assert n !in provided;
        }
      } else {
        assert !(exists j :: 0 <= j < |defs| && defs[j].name == n && slots[j].Some?);
      }
    }
  }
}
