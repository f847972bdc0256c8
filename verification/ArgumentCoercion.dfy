/**
 Argument coercion by three routes: all arguments of a field into a hash, the
 single argument of a one-argument field, and ahead of time into a payload that
 execution only reads back.
 */
module ArgumentCoercion {
  import opened Values
  import opened VariableSlots

  /** An argument definition and its default, in coerced form and as written. */
  datatype ArgDef = ArgDef(name: string, typ: string, nativeDefault: Option<Value>, rawDefault: Option<Value>)

  datatype Arg = Arg(name: string, value: Dynamic)

  /** An op's arguments: names and values side by side. */
  type Payload = seq<Arg>

  ghost predicate UniqueArgs(payload: Payload) {
    forall i, j :: 0 <= i < j < |payload| ==> payload[i].name != payload[j].name
  }

  ghost predicate UniqueDefs(defs: seq<ArgDef>) {
    forall i, j :: 0 <= i < j < |defs| ==> defs[i].name != defs[j].name
  }

  // ----- Looking up an argument -----

  /** The value of the named argument, by definition. */
  ghost predicate IsArgument(payload: Payload, name: string, r: Option<Dynamic>) {
    match r
    case Some(d) => exists i :: 0 <= i < |payload| && payload[i] == Arg(name, d)
    case None => forall i :: 0 <= i < |payload| ==> payload[i].name != name
  }

  /** The lookup: first at the hinted position, then by searching. */
  method Lookup(payload: Payload, name: string, hint: int) returns (r: Option<Dynamic>)
    ensures IsArgument(payload, name, r)
  {
    if 0 <= hint < |payload| && payload[hint].name == name {
      return Some(payload[hint].value);
    }
    for j := 0 to |payload|
      invariant forall i :: 0 <= i < j ==> payload[i].name != name
    {
      if payload[j].name == name {
        return Some(payload[j].value);
      }
    }
    return None;
  }

  /** With unique names the lookup has one answer, whatever the hint. */
  lemma ArgumentIsUnique(payload: Payload, name: string, r: Option<Dynamic>, r': Option<Dynamic>)
    requires UniqueArgs(payload) && IsArgument(payload, name, r) && IsArgument(payload, name, r')
    ensures r == r'
  {
    if r.Some? && r'.Some? {
      var i :| 0 <= i < |payload| && payload[i] == Arg(name, r.value);
      var j :| 0 <= j < |payload| && payload[j] == Arg(name, r'.value);
      assert i == j;
    }
  }

  ghost function ArgumentOf(payload: Payload, name: string): (r: Option<Dynamic>)
    requires UniqueArgs(payload)
    ensures IsArgument(payload, name, r)
  {
    if i :| 0 <= i < |payload| && payload[i].name == name then Some(payload[i].value) else None
  }

  // ----- The value of one argument -----

  /** What an absent argument gives: its coerced default, else its written default
      coerced, else nothing. */
  function DefaultOutcome(def: ArgDef, coerce: Coercion): Outcome {
    if def.nativeDefault.Some? then Got(def.nativeDefault.value)
    else if def.rawDefault.Some? then FromCoercion(coerce(def.typ, def.rawDefault.value))
    else Omitted
  }

  /** The GraphQL rule for one argument: a variable's prepared value is used as it
      is, a null one is coerced, a missing one makes the argument absent; any
      other value is materialized and coerced. */
  function ArgumentOutcome(def: ArgDef, raw: Option<Dynamic>, isDynamic: bool, hash: Option<Hash>, slots: Option<Slots>,
                           coerce: Coercion): Outcome {
    match raw
    case None => DefaultOutcome(def, coerce)
    case Some(d) =>
      if isDynamic && d.DVariable? then
        match Prepared(d.name, d.index, hash, slots)
        case None => DefaultOutcome(def, coerce)
        case Some(v) => if v == Undef then FromCoercion(coerce(def.typ, Undef)) else Got(v)
      else FromCoercion(coerce(def.typ, Materialize(d, if isDynamic then hash else None)))
  }

  ghost function OutcomeOf(defs: seq<ArgDef>, i: nat, payload: Payload, isDynamic: bool, hash: Option<Hash>,
                           slots: Option<Slots>, coerce: Coercion): Outcome
    requires i < |defs| && UniqueArgs(payload)
  {
    ArgumentOutcome(defs[i], ArgumentOf(payload, defs[i].name), isDynamic, hash, slots, coerce)
  }

  // ----- What each argument gets -----

  /** What coercing a value comes to. */
  predicate Comes(o: Outcome, r: Option<Value>) {
    if r.Some? then o.Got? && o.value == r.value else o.Failed?
  }

  /** What an argument without a value of its own gets. */
  predicate ComesFromDefault(o: Outcome, def: ArgDef, coerce: Coercion) {
    if def.nativeDefault.Some? then Comes(o, def.nativeDefault)
    else if def.rawDefault.Some? then Comes(o, coerce(def.typ, def.rawDefault.value))
    else o.Omitted?
  }

  /** An argument given as a variable has the variable's value as it was prepared; a null
      one is coerced, without regard to defaults; for a missing one the argument counts
      as not given. */
  lemma VariableArgument(defs: seq<ArgDef>, i: nat, payload: Payload, k: nat, x: string, index: int, hash: Hash,
                         coerce: Coercion)
    requires i < |defs| && UniqueArgs(payload) && k < |payload| && payload[k] == Arg(defs[i].name, DVariable(x, index))
    ensures var o := OutcomeOf(defs, i, payload, true, Some(hash), None, coerce);
            && (x in hash && hash[x] != Undef ==> o == Got(hash[x]))
            && (x in hash && hash[x] == Undef ==> Comes(o, coerce(defs[i].typ, Undef)))
            && (x !in hash ==> ComesFromDefault(o, defs[i], coerce))
  {
    ArgumentIsUnique(payload, defs[i].name, ArgumentOf(payload, defs[i].name), Some(payload[k].value));
  }

  /** The same through its slot, whatever the hash holds. */
  lemma SlotArgument(defs: seq<ArgDef>, i: nat, payload: Payload, k: nat, x: string, index: nat, hash: Option<Hash>,
                     slots: Slots, coerce: Coercion)
    requires i < |defs| && UniqueArgs(payload) && k < |payload| && payload[k] == Arg(defs[i].name, DVariable(x, index))
    requires index < |slots|
    ensures var o := OutcomeOf(defs, i, payload, true, hash, Some(slots), coerce);
            && (slots[index].Some? && slots[index].value != Undef ==> o == Got(slots[index].value))
            && (slots[index] == Some(Undef) ==> Comes(o, coerce(defs[i].typ, Undef)))
            && (slots[index].None? ==> ComesFromDefault(o, defs[i], coerce))
  {
    ArgumentIsUnique(payload, defs[i].name, ArgumentOf(payload, defs[i].name), Some(payload[k].value));
  }

  /** Any other argument given is coerced, with the values of the variables in it. */
  lemma LiteralArgument(defs: seq<ArgDef>, i: nat, payload: Payload, k: nat, d: Dynamic, isDynamic: bool,
                        hash: Option<Hash>, slots: Option<Slots>, coerce: Coercion)
    requires i < |defs| && UniqueArgs(payload) && k < |payload| && payload[k] == Arg(defs[i].name, d)
    requires !isDynamic || !d.DVariable?
    ensures Comes(OutcomeOf(defs, i, payload, isDynamic, hash, slots, coerce),
                  coerce(defs[i].typ, Materialize(d, if isDynamic then hash else None)))
  {
    ArgumentIsUnique(payload, defs[i].name, ArgumentOf(payload, defs[i].name), Some(payload[k].value));
  }

  /** An argument not given has its default, coerced unless it is so already, or none. */
  lemma AbsentArgument(defs: seq<ArgDef>, i: nat, payload: Payload, isDynamic: bool, hash: Option<Hash>,
                       slots: Option<Slots>, coerce: Coercion)
    requires i < |defs| && UniqueArgs(payload) && forall k :: 0 <= k < |payload| ==> payload[k].name != defs[i].name
    ensures ComesFromDefault(OutcomeOf(defs, i, payload, isDynamic, hash, slots, coerce), defs[i], coerce)
  {
  }

  /** `field(x: Int = 5)` with `x: $v`: null stays null, a missing `v` gives 5, 7 gives 7. */
  lemma NullArgumentIsNotDefaulted(coerce: Coercion)
    requires coerce("Int", Undef) == Some(Undef)
    ensures var defs, payload := [ArgDef("x", "Int", Some(Int(5)), None)], [Arg("x", DVariable("v", -1))];
            && UniqueArgs(payload)
            && OutcomeOf(defs, 0, payload, true, Some(map["v" := Undef]), None, coerce) == Got(Undef)
            && OutcomeOf(defs, 0, payload, true, Some(map[]), None, coerce) == Got(Int(5))
            && OutcomeOf(defs, 0, payload, true, Some(map["v" := Int(7)]), None, coerce) == Got(Int(7))
  {
    var defs, payload := [ArgDef("x", "Int", Some(Int(5)), None)], [Arg("x", DVariable("v", -1))];
    VariableArgument(defs, 0, payload, 0, "v", -1, map["v" := Undef], coerce);
    VariableArgument(defs, 0, payload, 0, "v", -1, map[], coerce);
    VariableArgument(defs, 0, payload, 0, "v", -1, map["v" := Int(7)], coerce);
  }

  /** The values of the variables in a literal are filled in by name; a missing one is null. */
  lemma FilledIn(x: string, index: int, v: Value, hash: Hash, items: seq<Dynamic>, entries: map<string, Dynamic>,
                 h: Option<Hash>)
    ensures Materialize(DVariable(x, index), Some(hash)) == if x in hash then hash[x] else Undef
    ensures Materialize(DVariable(x, index), None) == Undef
    ensures Materialize(DScalar(v), h) == v && Materialize(DUndef, h) == Undef
    ensures Materialize(DList(items), h).List? && |Materialize(DList(items), h).items| == |items|
    ensures forall i :: 0 <= i < |items| ==> Materialize(DList(items), h).items[i] == Materialize(items[i], h)
    ensures Materialize(DObject(entries), h).Object? && Materialize(DObject(entries), h).fields.Keys == entries.Keys
    ensures forall k :: k in entries ==> Materialize(DObject(entries), h).fields[k] == Materialize(entries[k], h)
  {
  }

  // ----- The general route -----

  /** Coerces every argument into a hash; None when one is rejected. */
  method CoerceArguments(defs: seq<ArgDef>, payload: Payload, isDynamic: bool, hash: Option<Hash>, slots: Option<Slots>,
                         coerce: Coercion) returns (r: Option<Hash>)
    requires UniqueDefs(defs) && UniqueArgs(payload)
    ensures r.Some? <==> forall i :: 0 <= i < |defs| ==>
              OutcomeOf(defs, i, payload, isDynamic, hash, slots, coerce) != Failed
    ensures r.Some? ==> IsCoerced(r.value, defs, payload, isDynamic, hash, slots, coerce)
  {
    var coerced: Hash := map[];
    for i := 0 to |defs|
      invariant forall j :: 0 <= j < i ==> OutcomeOf(defs, j, payload, isDynamic, hash, slots, coerce) != Failed
      invariant CoercedUpTo(coerced, defs, i, payload, isDynamic, hash, slots, coerce)
    {
      var def := defs[i];
      var raw := Lookup(payload, def.name, i);
      ArgumentIsUnique(payload, def.name, raw, ArgumentOf(payload, def.name));
      var rawValue: Option<Value> := None;
      var value: Option<Value> := None;
      var useDefault := raw.None?;
      if raw.Some? {
        if isDynamic && raw.value.DVariable? {
          var prepared := Prepared(raw.value.name, raw.value.index, hash, slots);
          if prepared.Some? {
            if prepared.value != Undef {
              value := prepared;
            } else {
              rawValue := prepared;
            }
          } else {
            useDefault := true;
          }
        } else if isDynamic {
          rawValue := Some(Materialize(raw.value, hash));
        } else {
          rawValue := Some(Materialize(raw.value, None));
        }
      }
      if useDefault {
        if def.nativeDefault.Some? {
          value := def.nativeDefault;
        } else {
          rawValue := def.rawDefault;
        }
      }
      if value.None? && rawValue.Some? {
        value := coerce(def.typ, rawValue.value);
        if value.None? {
          assert OutcomeOf(defs, i, payload, isDynamic, hash, slots, coerce) == Failed;
          return None;
        }
      }
      if value.Some? {
        coerced := coerced[def.name := value.value];
      }
    }
    return Some(coerced);
  }

  /** The hash holds exactly the arguments that have a value. */
  ghost predicate CoercedUpTo(coerced: Hash, defs: seq<ArgDef>, k: nat, payload: Payload, isDynamic: bool,
                              hash: Option<Hash>, slots: Option<Slots>, coerce: Coercion)
    requires k <= |defs| && UniqueArgs(payload)
  {
    && (forall i :: 0 <= i < k ==>
          match OutcomeOf(defs, i, payload, isDynamic, hash, slots, coerce)
          case Got(v) => defs[i].name in coerced && coerced[defs[i].name] == v
          case _ => defs[i].name !in coerced)
    && forall n :: n in coerced ==> exists i :: 0 <= i < k && defs[i].name == n
  }

  ghost predicate IsCoerced(coerced: Hash, defs: seq<ArgDef>, payload: Payload, isDynamic: bool, hash: Option<Hash>,
                            slots: Option<Slots>, coerce: Coercion)
    requires UniqueArgs(payload)
  {
    CoercedUpTo(coerced, defs, |defs|, payload, isDynamic, hash, slots, coerce)
  }

  /** A payload with its variable references bound to their slots. */
  function BindPayload(payload: Payload, variables: seq<VariableDef>): (bound: Payload)
    ensures |bound| == |payload|
    ensures forall k :: 0 <= k < |payload| ==> bound[k] == Arg(payload[k].name, Bind(payload[k].value, variables))
  {
    seq(|payload|, k requires 0 <= k < |payload| => Arg(payload[k].name, Bind(payload[k].value, variables)))
  }

  /** With slots the general route gives what it gives by name alone. */
  lemma SlotsCoerceAlike(defs: seq<ArgDef>, payload: Payload, variables: seq<VariableDef>, provided: Hash,
                         coerce: Coercion, hash: Hash, count: nat, i: nat)
    requires UniqueNames(variables) && Prepares(variables, provided, coerce)
    requires IsPreparedHash(hash, variables, provided, coerce) && count <= |variables|
    requires UniqueArgs(payload) && i < |defs|
    ensures UniqueArgs(BindPayload(payload, variables))
    ensures OutcomeOf(defs, i, BindPayload(payload, variables), true, Some(hash),
                      Some(AllSlots(variables, provided, coerce)[..count]), coerce)
            == OutcomeOf(defs, i, payload, true, Some(hash), None, coerce)
  {
    var bound := BindPayload(payload, variables);
    var raw := ArgumentOf(payload, defs[i].name);
    if raw.Some? {
      var k :| 0 <= k < |payload| && payload[k] == Arg(defs[i].name, raw.value);
      assert bound[k] == Arg(defs[i].name, Bind(raw.value, variables));
      ArgumentIsUnique(bound, defs[i].name, ArgumentOf(bound, defs[i].name), Some(Bind(raw.value, variables)));
      BindKeepsValue(raw.value, variables, Some(hash));
      if raw.value.DVariable? {
        BoundReferenceAgrees(raw.value.name, variables, provided, coerce, hash, count);
        UnboundByName(raw.value.name, raw.value.index, hash);
      }
    } else {
      ArgumentIsUnique(bound, defs[i].name, ArgumentOf(bound, defs[i].name), None);
    }
  }

  /** The arguments coerced through slots are those coerced by name. */
  lemma SlotsGiveSameArguments(defs: seq<ArgDef>, payload: Payload, variables: seq<VariableDef>, provided: Hash,
                               coerce: Coercion, hash: Hash, count: nat, bySlot: Hash, byName: Hash)
    requires UniqueNames(variables) && Prepares(variables, provided, coerce)
    requires IsPreparedHash(hash, variables, provided, coerce) && count <= |variables|
    requires UniqueArgs(payload) && UniqueArgs(BindPayload(payload, variables))
    requires IsCoerced(bySlot, defs, BindPayload(payload, variables), true, Some(hash),
                       Some(AllSlots(variables, provided, coerce)[..count]), coerce)
    requires IsCoerced(byName, defs, payload, true, Some(hash), None, coerce)
    ensures bySlot == byName
  {
    forall n ensures (n in bySlot <==> n in byName) && (n in bySlot ==> bySlot[n] == byName[n]) {
      if i :| 0 <= i < |defs| && defs[i].name == n {
        SlotsCoerceAlike(defs, payload, variables, provided, coerce, hash, count, i);
      }
    }
  }

  /** Whether a payload holds anything but bound references. */
  method NeedsVariables(payload: Payload) returns (r: bool)
    ensures r <==> exists k :: 0 <= k < |payload| && !(payload[k].value.DVariable? && payload[k].value.index >= 0)
  {
    for k := 0 to |payload|
      invariant forall j :: 0 <= j < k ==> payload[j].value.DVariable? && payload[j].value.index >= 0
    {
      if !(payload[k].value.DVariable? && payload[k].value.index >= 0) {
        return true;
      }
    }
    return false;
  }

  /** Arguments when only slots were prepared: the hash is rebuilt when the payload
      needs it. They are the arguments coerced by name over the full prepared hash. */
  method CoerceFromSlots(defs: seq<ArgDef>, bound: Payload, variables: seq<VariableDef>, provided: Hash, slots: Slots,
                         coerce: Coercion, ghost payload: Payload, ghost prepared: Hash) returns (r: Option<Hash>)
    requires UniqueNames(variables) && Prepares(variables, provided, coerce)
             && slots == AllSlots(variables, provided, coerce)
    requires IsPreparedHash(prepared, variables, provided, coerce)
    requires UniqueDefs(defs) && UniqueArgs(payload) && bound == BindPayload(payload, variables)
    ensures r.Some? <==> forall i :: 0 <= i < |defs| ==>
              OutcomeOf(defs, i, payload, true, Some(prepared), None, coerce) != Failed
    ensures r.Some? ==> IsCoerced(r.value, defs, payload, true, Some(prepared), None, coerce)
  {
    var needs := NeedsVariables(bound);
    var hash: Option<Hash> := None;
    if needs {
      var rebuilt := RebuildHash(variables, slots, provided);
      RebuiltHashIsPrepared(variables, provided, coerce, rebuilt, prepared);
      hash := Some(rebuilt);
    }
    forall i | 0 <= i < |defs|
      ensures UniqueArgs(bound)
      ensures OutcomeOf(defs, i, bound, true, hash, Some(slots), coerce)
              == OutcomeOf(defs, i, payload, true, Some(prepared), None, coerce)
    {
      if needs {
        assert slots[..|variables|] == slots;
        SlotsCoerceAlike(defs, payload, variables, provided, coerce, prepared, |variables|, i);
      } else {
        BoundCoerceAlike(defs, payload, variables, provided, coerce, prepared, i);
      }
    }
    assert UniqueArgs(bound);
    r := CoerceArguments(defs, bound, true, hash, Some(slots), coerce);
  }

  /** With nothing but bound references, slots suffice. */
  lemma BoundCoerceAlike(defs: seq<ArgDef>, payload: Payload, variables: seq<VariableDef>, provided: Hash,
                         coerce: Coercion, prepared: Hash, i: nat)
    requires UniqueNames(variables) && Prepares(variables, provided, coerce)
             && IsPreparedHash(prepared, variables, provided, coerce)
    requires UniqueArgs(payload) && i < |defs|
    requires var bound := BindPayload(payload, variables);
             forall k :: 0 <= k < |bound| ==> bound[k].value.DVariable? && bound[k].value.index >= 0
    ensures UniqueArgs(BindPayload(payload, variables))
    ensures OutcomeOf(defs, i, BindPayload(payload, variables), true, None, Some(AllSlots(variables, provided, coerce)),
                      coerce)
            == OutcomeOf(defs, i, payload, true, Some(prepared), None, coerce)
  {
    var bound := BindPayload(payload, variables);
    var raw := ArgumentOf(payload, defs[i].name);
    if raw.Some? {
      var k :| 0 <= k < |payload| && payload[k] == Arg(defs[i].name, raw.value);
      assert bound[k] == Arg(defs[i].name, Bind(raw.value, variables));
      ArgumentIsUnique(bound, defs[i].name, ArgumentOf(bound, defs[i].name), Some(Bind(raw.value, variables)));
      assert raw.value.DVariable?;
      DeclaredReferenceNeedsNoHash(raw.value.name, variables, provided, coerce, prepared);
      UnboundByName(raw.value.name, raw.value.index, prepared);
    } else {
      ArgumentIsUnique(bound, defs[i].name, ArgumentOf(bound, defs[i].name), None);
    }
  }

  lemma UnboundByName(name: string, index: int, hash: Hash)
    ensures Prepared(name, index, Some(hash), None) == Prepared(name, -1, Some(hash), None)
  {
  }

  // ----- The one-argument route -----

  /** The single argument's value, null when there is none; None when rejected. */
  method CoerceOneArgument(defs: seq<ArgDef>, payload: Payload, isDynamic: bool, hash: Option<Hash>,
                           slots: Option<Slots>, coerce: Coercion) returns (r: Option<Value>)
    requires UniqueArgs(payload)
    ensures |defs| == 1 ==>
              r == match OutcomeOf(defs, 0, payload, isDynamic, hash, slots, coerce)
                   case Got(v) => Some(v)
                   case Omitted => Some(Undef)
                   case Failed => None
    ensures |defs| != 1 ==> r == Some(Undef)
  {
    if |defs| != 1 {
      return Some(Undef);
    }
    var def := defs[0];
    var raw := Lookup(payload, def.name, 0);
    ArgumentIsUnique(payload, def.name, raw, ArgumentOf(payload, def.name));
    var rawValue: Option<Value> := None;
    if raw.Some? {
      if isDynamic && raw.value.DVariable? {
        var prepared := Prepared(raw.value.name, raw.value.index, hash, slots);
        if prepared.Some? {
          if prepared.value != Undef {
            return prepared;
          }
          rawValue := prepared;
        } else {
          if def.nativeDefault.Some? {
            return def.nativeDefault;
          }
          if def.rawDefault.Some? {
            rawValue := def.rawDefault;
          } else {
            return Some(Undef);
          }
        }
      }
      if rawValue.None? {
        rawValue := Some(Materialize(raw.value, if isDynamic then hash else None));
      }
    } else if def.nativeDefault.Some? {
      return def.nativeDefault;
    } else if def.rawDefault.Some? {
      rawValue := def.rawDefault;
    } else {
      return Some(Undef);
    }
    return coerce(def.typ, rawValue.value);
  }

  /** The one-argument route gives what the general route stores under the
      argument's name, null if nothing, and fails on the same inputs. */
  method CoerceBothWays(defs: seq<ArgDef>, payload: Payload, isDynamic: bool, hash: Option<Hash>, slots: Option<Slots>,
                        coerce: Coercion) returns (all: Option<Hash>, one: Option<Value>)
    requires |defs| == 1 && UniqueArgs(payload)
    ensures all.Some? <==> one.Some?
    ensures all.Some? ==> one.value == if defs[0].name in all.value then all.value[defs[0].name] else Undef
  {
    all := CoerceArguments(defs, payload, isDynamic, hash, slots, coerce);
    one := CoerceOneArgument(defs, payload, isDynamic, hash, slots, coerce);
  }

  // ----- The ahead-of-time route -----

  /** A payload value from a runtime value. References other than variables have
      no payload form and become null. */
  function FromValue(v: Value): Dynamic {
    match v
    case Undef => DUndef
    case Bool(_) => DScalar(Undef)
    case Enum(_) => DScalar(Undef)
    case Variable(name) => DVariable(name, -1)
    case List(items) => DList(seq(|items|, i requires 0 <= i < |items| => FromValue(items[i])))
    case Object(fields) => DObject(map k | k in fields :: FromValue(fields[k]))
    case _ => DScalar(v)
  }

  /** A value made of nulls, numbers, strings, lists and objects; booleans, and the
      other references, have no payload form. */
  predicate Storable(v: Value) {
    match v
    case Bool(_) => false
    case Enum(_) => false
    case Variable(_) => false
    case List(items) => forall i :: 0 <= i < |items| ==> Storable(items[i])
    case Object(fields) => forall k :: k in fields ==> Storable(fields[k])
    case _ => true
  }

  /** What a payload gives back for a stored value. */
  function ReadBack(v: Value): Value {
    Materialize(FromValue(v), None)
  }

  /** Exactly the storable values survive being stored. */
  lemma {:induction false} ValueRoundTrip(v: Value)
    ensures Storable(v) <==> ReadBack(v) == v
    decreases v
  {
    match v
    case List(items) =>
      forall i | 0 <= i < |items| ensures Storable(items[i]) <==> ReadBack(items[i]) == items[i] {
        ValueRoundTrip(items[i]);
      }
      if ReadBack(v) == v {
        forall i | 0 <= i < |items| ensures Storable(items[i]) {
          assert ReadBack(v).items[i] == ReadBack(items[i]);
        }
      }
    case Object(fields) =>
      forall k | k in fields ensures Storable(fields[k]) <==> ReadBack(fields[k]) == fields[k] {
        ValueRoundTrip(fields[k]);
      }
      if ReadBack(v) == v {
        forall k | k in fields ensures Storable(fields[k]) {
          assert ReadBack(v).fields[k] == ReadBack(fields[k]);
        }
      }
    case _ =>
  }

  /** What comes back survives being stored again, as when a specialized program is
      written out and loaded. */
  lemma {:induction false} ReadBackSettles(v: Value)
    ensures Storable(ReadBack(v)) && ReadBack(ReadBack(v)) == ReadBack(v)
    decreases v
  {
    ValueRoundTrip(ReadBack(v));
    match v
    case List(items) =>
      forall i | 0 <= i < |items| ensures Storable(ReadBack(items[i])) {
        ReadBackSettles(items[i]);
      }
    case Object(fields) =>
      forall k | k in fields ensures Storable(ReadBack(fields[k])) {
        ReadBackSettles(fields[k]);
      }
    case _ =>
  }

  /** A stored boolean comes back as null. */
  lemma BooleansAreLost(b: bool)
    ensures ReadBack(Bool(b)) == Undef && ReadBack(List([Bool(b)])) == List([Undef])
  {
    assert FromValue(Bool(b)) == DScalar(Undef);
    assert FromValue(List([Bool(b)])) == DList([DScalar(Undef)]);
    assert ReadBack(Bool(b)) == Undef;
    assert Materialize(DList([DScalar(Undef)]), None) == List([Undef]);
  }

  /** Nulls, numbers and strings survive being stored; booleans, enums and references to
      variables come back as null. */
  lemma WhatIsStored(b: bool, n: int, text: string)
    ensures ReadBack(Undef) == Undef && ReadBack(Int(n)) == Int(n) && ReadBack(Float(text)) == Float(text)
    ensures ReadBack(Str(text)) == Str(text)
    ensures ReadBack(Bool(b)) == Undef && ReadBack(Enum(text)) == Undef && ReadBack(Variable(text)) == Undef
  {
  }

  /** Lists and objects come back item by item and field by field. */
  lemma ContainersAreStored(items: seq<Value>, fields: map<string, Value>)
    ensures ReadBack(List(items)).List? && |ReadBack(List(items)).items| == |items|
    ensures forall i :: 0 <= i < |items| ==> ReadBack(List(items)).items[i] == ReadBack(items[i])
    ensures ReadBack(Object(fields)).Object? && ReadBack(Object(fields)).fields.Keys == fields.Keys
    ensures forall k :: k in fields ==> ReadBack(Object(fields)).fields[k] == ReadBack(fields[k])
  {
  }

  /** A missing variable, for the ahead-of-time route, is a null one. */
  function AheadOutcome(def: ArgDef, raw: Option<Dynamic>, isDynamic: bool, hash: Option<Hash>,
                        coerce: Coercion): Outcome {
    if raw.Some? && isDynamic && raw.value.DVariable? && Prepared(raw.value.name, -1, hash, None).None?
    then FromCoercion(coerce(def.typ, Undef))
    else ArgumentOutcome(def, raw, isDynamic, hash, None, coerce)
  }

  ghost function AheadOf(defs: seq<ArgDef>, i: nat, payload: Payload, isDynamic: bool, hash: Option<Hash>,
                         coerce: Coercion): Outcome
    requires i < |defs| && UniqueArgs(payload)
  {
    AheadOutcome(defs[i], ArgumentOf(payload, defs[i].name), isDynamic, hash, coerce)
  }

  ghost predicate NoneFails(defs: seq<ArgDef>, payload: Payload, isDynamic: bool, hash: Option<Hash>, coerce: Coercion)
    requires UniqueArgs(payload)
  {
    forall i :: 0 <= i < |defs| ==> AheadOf(defs, i, payload, isDynamic, hash, coerce) != Failed
  }

  /** Ahead of time, an argument given as a variable has the variable's value unless it is
      null or missing, in which case null is coerced. */
  lemma VariableAhead(defs: seq<ArgDef>, i: nat, payload: Payload, k: nat, x: string, index: int, hash: Hash,
                      coerce: Coercion)
    requires i < |defs| && UniqueArgs(payload) && k < |payload| && payload[k] == Arg(defs[i].name, DVariable(x, index))
    ensures var o := AheadOf(defs, i, payload, true, Some(hash), coerce);
            if x in hash && hash[x] != Undef then o == Got(hash[x]) else Comes(o, coerce(defs[i].typ, Undef))
  {
    ArgumentIsUnique(payload, defs[i].name, ArgumentOf(payload, defs[i].name), Some(payload[k].value));
  }

  /** The specialized payload: the coerced values of the first `k` arguments, in
      definition order, in payload form. */
  ghost function Specialized(defs: seq<ArgDef>, k: nat, payload: Payload, isDynamic: bool, hash: Option<Hash>,
                             coerce: Coercion): Payload
    requires k <= |defs| && UniqueArgs(payload)
  {
    if k == 0 then [] else
      Specialized(defs, k - 1, payload, isDynamic, hash, coerce)
      + (match AheadOf(defs, k - 1, payload, isDynamic, hash, coerce)
         case Got(v) => [Arg(defs[k - 1].name, FromValue(v))]
         case _ => [])
  }

  /** Values are stored under their arguments' names, in the order of the definitions. */
  lemma StoredInOrder(a: ArgDef, b: ArgDef, payload: Payload, isDynamic: bool, hash: Option<Hash>, coerce: Coercion,
                      x: Value, y: Value)
    requires UniqueArgs(payload)
    requires AheadOf([a, b], 0, payload, isDynamic, hash, coerce) == Got(x)
    requires AheadOf([a, b], 1, payload, isDynamic, hash, coerce) == Got(y)
    ensures Specialized([a, b], 2, payload, isDynamic, hash, coerce)
            == [Arg(a.name, FromValue(x)), Arg(b.name, FromValue(y))]
  {
    assert Specialized([a, b], 1, payload, isDynamic, hash, coerce) == [Arg(a.name, FromValue(x))];
  }

  /** The value of one argument ahead of time: a prepared variable that is not null
      as it is, anything else coerced; absent arguments take their default. */
  method AheadValue(def: ArgDef, raw: Option<Dynamic>, isDynamic: bool, hash: Option<Hash>, coerce: Coercion)
    returns (r: Outcome)
    ensures r == AheadOutcome(def, raw, isDynamic, hash, coerce)
  {
    if raw.Some? {
      var prepared := if isDynamic && raw.value.DVariable? then Prepared(raw.value.name, -1, hash, None) else None;
      if prepared.Some? && prepared.value != Undef {
        return Got(prepared.value);
      }
      return FromCoercion(coerce(def.typ, Materialize(raw.value, if isDynamic then hash else None)));
    } else if def.nativeDefault.Some? {
      return Got(def.nativeDefault.value);
    } else if def.rawDefault.Some? {
      return FromCoercion(coerce(def.typ, def.rawDefault.value));
    }
    return Omitted;
  }

  /** Coerces an op's arguments into a new payload; None when one is rejected. */
  method SpecializePayload(defs: seq<ArgDef>, payload: Payload, isDynamic: bool, hash: Option<Hash>, coerce: Coercion)
    returns (r: Option<Payload>)
    requires UniqueArgs(payload)
    ensures r.Some? <==> NoneFails(defs, payload, isDynamic, hash, coerce)
    ensures r.Some? ==> r.value == Specialized(defs, |defs|, payload, isDynamic, hash, coerce)
  {
    var out: Payload := [];
    for i := 0 to |defs|
      invariant forall j :: 0 <= j < i ==> AheadOf(defs, j, payload, isDynamic, hash, coerce) != Failed
      invariant out == Specialized(defs, i, payload, isDynamic, hash, coerce)
    {
      var def := defs[i];
      var raw := Lookup(payload, def.name, i);
      ArgumentIsUnique(payload, def.name, raw, ArgumentOf(payload, def.name));
      var value := AheadValue(def, raw, isDynamic, hash, coerce);
      assert value == AheadOf(defs, i, payload, isDynamic, hash, coerce);
      if value.Failed? {
        return None;
      }
      if value.Got? {
        out := out + [Arg(def.name, FromValue(value.value))];
      }
    }
    return Some(out);
  }

  ghost predicate IsMaterialized(payload: Payload, hash: Hash) {
    && (forall n :: n in hash <==> exists i :: 0 <= i < |payload| && payload[i].name == n)
    && (forall i :: 0 <= i < |payload| ==>
          payload[i].name in hash && hash[payload[i].name] == Materialize(payload[i].value, None))
  }

  /** Reading a specialized payload back as a hash, without any coercion. */
  method MaterializePayload(payload: Payload) returns (hash: Hash)
    requires UniqueArgs(payload)
    ensures IsMaterialized(payload, hash)
  {
    hash := map[];
    for i := 0 to |payload|
      invariant forall n :: n in hash <==> exists j :: 0 <= j < i && payload[j].name == n
      invariant forall j :: 0 <= j < i ==>
                  payload[j].name in hash && hash[payload[j].name] == Materialize(payload[j].value, None)
    {
      hash := hash[payload[i].name := Materialize(payload[i].value, None)];
    }
  }

  lemma AppendArgument(t: Payload, a: Arg, name: string, r: Option<Dynamic>)
    requires forall j :: 0 <= j < |t| ==> t[j].name != a.name
    ensures IsArgument(t + [a], a.name, Some(a.value))
    ensures name != a.name && IsArgument(t, name, r) ==> IsArgument(t + [a], name, r)
  {
    assert (t + [a])[|t|] == a;
    if name != a.name && r.Some? && IsArgument(t, name, r) {
      var i :| 0 <= i < |t| && t[i] == Arg(name, r.value);
      assert (t + [a])[i] == Arg(name, r.value);
    }
  }

  function Stored(o: Outcome): Option<Dynamic> {
    if o.Got? then Some(FromValue(o.value)) else None
  }

  /** The arguments before definition `k` carry other names than it. */
  lemma {:induction false} SpecializedNames(defs: seq<ArgDef>, k: nat, name: string, payload: Payload, isDynamic: bool,
                                            hash: Option<Hash>, coerce: Coercion)
    requires k <= |defs| && UniqueArgs(payload) && forall i :: 0 <= i < k ==> defs[i].name != name
    ensures IsArgument(Specialized(defs, k, payload, isDynamic, hash, coerce), name, None)
  {
    if k > 0 {
      SpecializedNames(defs, k - 1, name, payload, isDynamic, hash, coerce);
    }
  }

  /** The specialized payload has exactly the arguments with a value. */
  lemma {:induction false} SpecializedEntry(defs: seq<ArgDef>, k: nat, i: nat, payload: Payload, isDynamic: bool,
                                            hash: Option<Hash>, coerce: Coercion)
    requires i < k <= |defs| && UniqueArgs(payload) && UniqueDefs(defs)
    ensures IsArgument(Specialized(defs, k, payload, isDynamic, hash, coerce), defs[i].name,
                       Stored(AheadOf(defs, i, payload, isDynamic, hash, coerce)))
  {
    var t := Specialized(defs, k - 1, payload, isDynamic, hash, coerce);
    var last := Stored(AheadOf(defs, k - 1, payload, isDynamic, hash, coerce));
    SpecializedNames(defs, k - 1, defs[k - 1].name, payload, isDynamic, hash, coerce);
    var mine := Stored(AheadOf(defs, i, payload, isDynamic, hash, coerce));
    if i < k - 1 {
      SpecializedEntry(defs, k - 1, i, payload, isDynamic, hash, coerce);
    }
    assert Specialized(defs, k, payload, isDynamic, hash, coerce)
           == if last.Some? then t + [Arg(defs[k - 1].name, last.value)] else t;
    if last.Some? {
      AppendArgument(t, Arg(defs[k - 1].name, last.value), defs[i].name, mine);
    }
  }

  /** The environment the ahead-of-time route sees: every variable an argument
      refers to directly has a value, null if it was missing. */
  ghost function Completed(payload: Payload, hash: Option<Hash>): Hash {
    var known: Hash := if hash.Some? then hash.value else map[];
    map n | n in known.Keys + DirectVariables(payload) :: if n in known then known[n] else Undef
  }

  ghost function DirectVariables(payload: Payload): set<string> {
    set i | 0 <= i < |payload| && payload[i].value.DVariable? :: payload[i].value.name
  }

  lemma {:induction false} NullsMaterializeAlike(d: Dynamic, payload: Payload, hash: Option<Hash>)
    ensures Materialize(d, Some(Completed(payload, hash))) == Materialize(d, hash)
    decreases d
  {
    match d
    case DList(items) =>
      forall i | 0 <= i < |items|
        ensures Materialize(items[i], Some(Completed(payload, hash))) == Materialize(items[i], hash)
      {
        NullsMaterializeAlike(items[i], payload, hash);
      }
    case DObject(entries) =>
      forall k | k in entries
        ensures Materialize(entries[k], Some(Completed(payload, hash))) == Materialize(entries[k], hash)
      {
        NullsMaterializeAlike(entries[k], payload, hash);
      }
    case _ =>
  }

  /** Ahead of time, an argument gets what the general route gives it over the
      completed environment. */
  lemma AheadIsGeneralCompleted(defs: seq<ArgDef>, i: nat, payload: Payload, isDynamic: bool, hash: Option<Hash>,
                                coerce: Coercion)
    requires i < |defs| && UniqueArgs(payload)
    ensures AheadOf(defs, i, payload, isDynamic, hash, coerce)
            == OutcomeOf(defs, i, payload, isDynamic, Some(Completed(payload, hash)), None, coerce)
  {
    var raw := ArgumentOf(payload, defs[i].name);
    if raw.Some? {
      var k :| 0 <= k < |payload| && payload[k] == Arg(defs[i].name, raw.value);
      NullsMaterializeAlike(raw.value, payload, hash);
      if raw.value.DVariable? {
        assert payload[k].value.name in DirectVariables(payload);
      }
    }
  }

  /** Specializing ahead of time and reading the payload back gives the hash of the
      general route over the completed environment exactly when every value is storable. */
  lemma AheadOfTimeAgrees(defs: seq<ArgDef>, payload: Payload, isDynamic: bool, hash: Option<Hash>, coerce: Coercion,
                          readBack: Hash, general: Hash)
    requires UniqueDefs(defs) && UniqueArgs(payload)
    requires NoneFails(defs, payload, isDynamic, hash, coerce)
    requires IsMaterialized(Specialized(defs, |defs|, payload, isDynamic, hash, coerce), readBack)
    requires IsCoerced(general, defs, payload, isDynamic, Some(Completed(payload, hash)), None, coerce)
    ensures readBack == general <==>
            forall i :: 0 <= i < |defs| ==>
              var o := AheadOf(defs, i, payload, isDynamic, hash, coerce); o.Got? ==> Storable(o.value)
  {
    forall i | 0 <= i < |defs|
      ensures AheadOf(defs, i, payload, isDynamic, hash, coerce)
              == OutcomeOf(defs, i, payload, isDynamic, Some(Completed(payload, hash)), None, coerce)
      ensures ReadBackOutcome(AheadOf(defs, i, payload, isDynamic, hash, coerce))
              == OutcomeOf(defs, i, payload, isDynamic, Some(Completed(payload, hash)), None, coerce)
              <==> var o := AheadOf(defs, i, payload, isDynamic, hash, coerce); o.Got? ==> Storable(o.value)
    {
      AheadIsGeneralCompleted(defs, i, payload, isDynamic, hash, coerce);
      StorableOutcome(AheadOf(defs, i, payload, isDynamic, hash, coerce));
    }
    ReadBackIsGeneralIff(defs, payload, isDynamic, hash, Some(Completed(payload, hash)), coerce, readBack, general);
  }

  function ReadBackOutcome(o: Outcome): Outcome {
    if o.Got? then Got(ReadBack(o.value)) else o
  }

  lemma StorableOutcome(o: Outcome)
    ensures ReadBackOutcome(o) == o <==> (o.Got? ==> Storable(o.value))
  {
    if o.Got? {
      ValueRoundTrip(o.value);
    }
  }

  /** The payload read back is the general hash over an environment exactly when each
      argument's outcome, read back, is its outcome there. */
  lemma ReadBackIsGeneralIff(defs: seq<ArgDef>, payload: Payload, isDynamic: bool, hash: Option<Hash>,
                             environment: Option<Hash>, coerce: Coercion, readBack: Hash, general: Hash)
    requires UniqueDefs(defs) && UniqueArgs(payload)
    requires NoneFails(defs, payload, isDynamic, hash, coerce)
    requires forall i :: 0 <= i < |defs| ==> OutcomeOf(defs, i, payload, isDynamic, environment, None, coerce) != Failed
    requires IsMaterialized(Specialized(defs, |defs|, payload, isDynamic, hash, coerce), readBack)
    requires IsCoerced(general, defs, payload, isDynamic, environment, None, coerce)
    ensures readBack == general <==>
            forall i :: 0 <= i < |defs| ==>
              ReadBackOutcome(AheadOf(defs, i, payload, isDynamic, hash, coerce))
              == OutcomeOf(defs, i, payload, isDynamic, environment, None, coerce)
  {
    StoredShows(defs, payload, isDynamic, hash, coerce, readBack);
    var ahead := AheadReadBack(defs, payload, isDynamic, hash, coerce);
    var outcomes := GeneralOutcomes(defs, payload, isDynamic, environment, coerce);
    ShowSameIff(defs, readBack, general, ahead, outcomes);
    assert ahead == outcomes <==> forall i :: 0 <= i < |defs| ==> ahead[i] == outcomes[i];
  }

  /** A hash that holds the values of the arguments that have one, and nothing else. */
  ghost predicate Shows(h: Hash, defs: seq<ArgDef>, outcomes: seq<Outcome>)
    requires |outcomes| == |defs|
  {
    && (forall i :: 0 <= i < |defs| ==>
          match outcomes[i]
          case Got(v) => defs[i].name in h && h[defs[i].name] == v
          case _ => defs[i].name !in h)
    && forall n :: n in h ==> exists i :: 0 <= i < |defs| && defs[i].name == n
  }

  ghost predicate AllSucceed(os: seq<Outcome>) {
    forall i :: 0 <= i < |os| ==> os[i] != Failed
  }

  lemma ShowSameIff(defs: seq<ArgDef>, g: Hash, h: Hash, os: seq<Outcome>, os': seq<Outcome>)
    requires |os| == |os'| == |defs| && Shows(g, defs, os) && Shows(h, defs, os')
    requires AllSucceed(os) && AllSucceed(os')
    ensures g == h <==> os == os'
  {
    if os == os' {
      forall n ensures (n in g <==> n in h) && (n in g ==> g[n] == h[n]) {
        if n in g || n in h {
          var i :| 0 <= i < |defs| && defs[i].name == n;
          assert os[i] == os'[i];
        }
      }
    }
    if g == h {
      forall i | 0 <= i < |defs| ensures os[i] == os'[i] {
      }
    }
  }

  ghost function AheadReadBack(defs: seq<ArgDef>, payload: Payload, isDynamic: bool, hash: Option<Hash>,
                               coerce: Coercion)
    : (os: seq<Outcome>)
    requires UniqueArgs(payload)
    ensures |os| == |defs|
    ensures forall i :: 0 <= i < |defs| ==> os[i] == ReadBackOutcome(AheadOf(defs, i, payload, isDynamic, hash, coerce))
  {
    seq(|defs|, i requires 0 <= i < |defs| => ReadBackOutcome(AheadOf(defs, i, payload, isDynamic, hash, coerce)))
  }

  ghost function GeneralOutcomes(defs: seq<ArgDef>, payload: Payload, isDynamic: bool, hash: Option<Hash>,
                                 coerce: Coercion)
    : (os: seq<Outcome>)
    requires UniqueArgs(payload)
    ensures |os| == |defs|
    ensures forall i :: 0 <= i < |defs| ==> os[i] == OutcomeOf(defs, i, payload, isDynamic, hash, None, coerce)
  {
    seq(|defs|, i requires 0 <= i < |defs| => OutcomeOf(defs, i, payload, isDynamic, hash, None, coerce))
  }

  /** A specialized payload read back shows the ahead-of-time outcomes read back. */
  lemma StoredShows(defs: seq<ArgDef>, payload: Payload, isDynamic: bool, hash: Option<Hash>, coerce: Coercion,
                    readBack: Hash)
    requires UniqueDefs(defs) && UniqueArgs(payload)
    requires IsMaterialized(Specialized(defs, |defs|, payload, isDynamic, hash, coerce), readBack)
    ensures Shows(readBack, defs, AheadReadBack(defs, payload, isDynamic, hash, coerce))
  {
    forall i | 0 <= i < |defs|
      ensures match ReadBackOutcome(AheadOf(defs, i, payload, isDynamic, hash, coerce))
              case Got(v) => defs[i].name in readBack && readBack[defs[i].name] == v
              case _ => defs[i].name !in readBack
    {
      SpecializedEntry(defs, |defs|, i, payload, isDynamic, hash, coerce);
      ReadBackOne(defs, i, payload, isDynamic, hash, coerce, readBack);
    }
    forall n | n in readBack ensures exists i :: 0 <= i < |defs| && defs[i].name == n {
      if forall i :: 0 <= i < |defs| ==> defs[i].name != n {
        SpecializedNames(defs, |defs|, n, payload, isDynamic, hash, coerce);
      }
    }
  }

  lemma ReadBackOne(defs: seq<ArgDef>, i: nat, payload: Payload, isDynamic: bool, hash: Option<Hash>, coerce: Coercion,
                    readBack: Hash)
    requires i < |defs| && UniqueArgs(payload)
    requires var s := Specialized(defs, |defs|, payload, isDynamic, hash, coerce);
             && IsMaterialized(s, readBack)
             && IsArgument(s, defs[i].name, Stored(AheadOf(defs, i, payload, isDynamic, hash, coerce)))
    ensures match AheadOf(defs, i, payload, isDynamic, hash, coerce)
            case Got(v) => defs[i].name in readBack && readBack[defs[i].name] == ReadBack(v)
            case _ => defs[i].name !in readBack
  {
    var o := AheadOf(defs, i, payload, isDynamic, hash, coerce);
    if o.Got? {
      var s := Specialized(defs, |defs|, payload, isDynamic, hash, coerce);
      var j :| 0 <= j < |s| && s[j] == Arg(defs[i].name, FromValue(o.value));
    }
  }

  // ----- Both routes over the same environment -----

  /** The argument refers to a variable that was not provided. */
  ghost predicate RefersToMissing(defs: seq<ArgDef>, i: nat, payload: Payload, isDynamic: bool, hash: Option<Hash>)
    requires i < |defs| && UniqueArgs(payload)
  {
    var raw := ArgumentOf(payload, defs[i].name);
    isDynamic && raw.Some? && raw.value.DVariable? && Prepared(raw.value.name, -1, hash, None).None?
  }

  /** An argument is stored as the general route has it: a missing variable when null,
      coerced and stored, is the default; anything else when its value is storable. */
  ghost predicate StoredAlike(defs: seq<ArgDef>, i: nat, payload: Payload, isDynamic: bool, hash: Option<Hash>,
                              coerce: Coercion)
    requires i < |defs| && UniqueArgs(payload)
  {
    if RefersToMissing(defs, i, payload, isDynamic, hash) then
      ReadBackOutcome(FromCoercion(coerce(defs[i].typ, Undef))) == DefaultOutcome(defs[i], coerce)
    else
      var o := OutcomeOf(defs, i, payload, isDynamic, hash, None, coerce);
      o.Got? ==> Storable(o.value)
  }

  ghost predicate AllStoredAlike(defs: seq<ArgDef>, payload: Payload, isDynamic: bool, hash: Option<Hash>,
                                 coerce: Coercion)
    requires UniqueArgs(payload)
  {
    forall i :: 0 <= i < |defs| ==> StoredAlike(defs, i, payload, isDynamic, hash, coerce)
  }

  lemma StoredAlikeIffReadBack(defs: seq<ArgDef>, i: nat, payload: Payload, isDynamic: bool, hash: Option<Hash>,
                               coerce: Coercion)
    requires i < |defs| && UniqueArgs(payload)
    ensures StoredAlike(defs, i, payload, isDynamic, hash, coerce) <==>
            ReadBackOutcome(AheadOf(defs, i, payload, isDynamic, hash, coerce))
            == OutcomeOf(defs, i, payload, isDynamic, hash, None, coerce)
  {
    StorableOutcome(OutcomeOf(defs, i, payload, isDynamic, hash, None, coerce));
    var raw := ArgumentOf(payload, defs[i].name);
    if raw.Some? && raw.value.DVariable? {
      IndexIsIgnored(raw.value.name, raw.value.index, hash);
    }
  }

  lemma IndexIsIgnored(name: string, index: int, hash: Option<Hash>)
    ensures Prepared(name, index, hash, None) == Prepared(name, -1, hash, None)
  {
  }

  /** A field's arguments specialized ahead of time and read back, and coerced by the
      general route. Where the general route succeeds the two agree exactly when every
      argument is stored as it has it; where it fails, exactly when some argument fails
      ahead of time too. */
  method SpecializeBothWays(defs: seq<ArgDef>, payload: Payload, isDynamic: bool, hash: Option<Hash>, coerce: Coercion)
    returns (ahead: Option<Hash>, general: Option<Hash>)
    requires UniqueDefs(defs) && UniqueArgs(payload)
    ensures general.Some? ==>
              (ahead == general <==> AllStoredAlike(defs, payload, isDynamic, hash, coerce))
    ensures general.None? ==>
              (ahead == general <==>
                 exists i :: 0 <= i < |defs| && AheadOf(defs, i, payload, isDynamic, hash, coerce) == Failed)
    ensures general.None? <==>
              exists i :: 0 <= i < |defs| && OutcomeOf(defs, i, payload, isDynamic, hash, None, coerce) == Failed
  {
    general := CoerceArguments(defs, payload, isDynamic, hash, None, coerce);
    var specialized := SpecializePayload(defs, payload, isDynamic, hash, coerce);
    forall i | 0 <= i < |defs|
      ensures StoredAlike(defs, i, payload, isDynamic, hash, coerce) <==>
              ReadBackOutcome(AheadOf(defs, i, payload, isDynamic, hash, coerce))
              == OutcomeOf(defs, i, payload, isDynamic, hash, None, coerce)
    {
      StoredAlikeIffReadBack(defs, i, payload, isDynamic, hash, coerce);
    }
    if specialized.None? {
      return None, general;
    }
    SpecializedIsUnique(defs, |defs|, payload, isDynamic, hash, coerce);
    var readBack := MaterializePayload(specialized.value);
    ahead := Some(readBack);
    if general.Some? {
      ReadBackIsGeneralIff(defs, payload, isDynamic, hash, hash, coerce, readBack, general.value);
    }
  }

  lemma {:induction false} SpecializedIsUnique(defs: seq<ArgDef>, k: nat, payload: Payload, isDynamic: bool,
                                               hash: Option<Hash>, coerce: Coercion)
    requires k <= |defs| && UniqueDefs(defs) && UniqueArgs(payload)
    ensures UniqueArgs(Specialized(defs, k, payload, isDynamic, hash, coerce))
  {
    if k > 0 {
      SpecializedIsUnique(defs, k - 1, payload, isDynamic, hash, coerce);
      SpecializedNames(defs, k - 1, defs[k - 1].name, payload, isDynamic, hash, coerce);
    }
  }

  /** `field(x: Int = 5)` called as `field(x: $v)` without `$v`: the general route
      gives 5, the payload gives null. */
  lemma RoutesDifferOnMissingVariable(coerce: Coercion)
    requires coerce("Int", Undef) == Some(Undef)
    ensures var defs, payload := [ArgDef("x", "Int", Some(Int(5)), None)], [Arg("x", DVariable("v", 0))];
            && UniqueArgs(payload)
            && OutcomeOf(defs, 0, payload, true, Some(map[]), None, coerce) == Got(Int(5))
            && ReadBackOutcome(AheadOf(defs, 0, payload, true, Some(map[]), coerce)) == Got(Undef)
            && !StoredAlike(defs, 0, payload, true, Some(map[]), coerce)
  {
    var payload := [Arg("x", DVariable("v", 0))];
    assert IsArgument(payload, "x", Some(payload[0].value));
    ArgumentIsUnique(payload, "x", ArgumentOf(payload, "x"), Some(payload[0].value));
  }

  /** The two routes treat an argument alike exactly when it is not a missing
      variable, or coercing null gives what its absence gives. */
  lemma RoutesAgreeIffPrepared(defs: seq<ArgDef>, i: nat, payload: Payload, hash: Option<Hash>, coerce: Coercion)
    requires i < |defs| && UniqueArgs(payload)
    ensures AheadOf(defs, i, payload, true, hash, coerce) == OutcomeOf(defs, i, payload, true, hash, None, coerce) <==>
            (var raw := ArgumentOf(payload, defs[i].name);
             && raw.Some? && raw.value.DVariable? && !(hash.Some? && raw.value.name in hash.value)
             ==> FromCoercion(coerce(defs[i].typ, Undef)) == DefaultOutcome(defs[i], coerce))
  {
  }
}
