/**
 The arguments a resolver gets from an operation, before and after passes over it:
 the executor reads a static payload as it is stored and coerces any other. A
 payload stored by one pass is coerced again by the next.
 */
module SpecializedArguments {
  import opened Values
  import opened VariableSlots
  import opened ArgumentCoercion
  import opened Specialization

  function DefsOf(slots: seq<Slot>, v: View): seq<ArgDef> {
    if SlotInRange(slots, v.slotIndex) then slots[v.slotIndex].argDefs else []
  }

  predicate IsDynamic(v: View) {
    v.argsMode == DynamicMode
  }

  predicate Coerces(pass: Pass, slots: seq<Slot>, v: View) {
    CoercesArgs(pass, slots, v.slotIndex, v.hasArgs, v.argsMode)
  }

  predicate ReadsStored(slots: seq<Slot>, v: View) {
    v.argsMode == StaticMode && v.args.Some? && (v.hasArgs || |DefsOf(slots, v)| > 0)
  }

  /** What the resolver gets for an operation; None when an argument is rejected. */
  ghost predicate Gets(slots: seq<Slot>, v: View, hash: Option<Hash>, variables: Option<Slots>, coerce: Coercion,
                       r: Option<Hash>)
  {
    && WellFormed(v)
    && (if ReadsStored(slots, v) then
          r.Some? && IsMaterialized(v.args.value, r.value)
        else if SlotInRange(slots, v.slotIndex) && (|DefsOf(slots, v)| > 0 || v.hasArgs) then
          IsGeneral(DefsOf(slots, v), PayloadOf(v.args), IsDynamic(v), hash, variables, coerce, r)
        else
          r == Some(map[]))
  }

  /** What the general route gives. */
  ghost predicate IsGeneral(defs: seq<ArgDef>, payload: Payload, isDynamic: bool, hash: Option<Hash>,
                            variables: Option<Slots>, coerce: Coercion, r: Option<Hash>)
    requires UniqueArgs(payload)
  {
    && (r.Some? <==>
        forall i :: 0 <= i < |defs| ==> OutcomeOf(defs, i, payload, isDynamic, hash, variables, coerce) != Failed)
    && (r.Some? ==> IsCoerced(r.value, defs, payload, isDynamic, hash, variables, coerce))
  }

  method CurrentArguments(slots: seq<Slot>, v: View, hash: Option<Hash>, variables: Option<Slots>, coerce: Coercion)
    returns (r: Option<Hash>)
    requires WellFormed(v) && UniqueDefs(DefsOf(slots, v))
    ensures Gets(slots, v, hash, variables, coerce, r)
  {
    var inRange := SlotInRange(slots, v.slotIndex);
    if !v.hasArgs && (!inRange || |slots[v.slotIndex].argDefs| == 0) {
      return Some(map[]);
    }
    if v.argsMode == StaticMode && v.args.Some? {
      var stored := MaterializePayload(v.args.value);
      return Some(stored);
    }
    if inRange {
      r := CoerceArguments(slots[v.slotIndex].argDefs, PayloadOf(v.args), IsDynamic(v), hash, variables, coerce);
      return;
    }
    return Some(map[]);
  }

  // ----- What is stored -----

  /** A pass coerces the operation's arguments and succeeds. */
  ghost predicate Specializes(pass: Pass, slots: seq<Slot>, v: View, coerce: Coercion) {
    && WellFormed(v) && UniqueDefs(DefsOf(slots, v))
    && Coerces(pass, slots, v) && Keeps(pass, v) && Accepts(pass, slots, v, coerce)
  }

  ghost function Ahead(pass: Pass, slots: seq<Slot>, v: View, i: nat, coerce: Coercion): Outcome
    requires WellFormed(v) && i < |DefsOf(slots, v)|
  {
    AheadOf(DefsOf(slots, v), i, PayloadOf(v.args), IsDynamic(v), Environment(pass), coerce)
  }

  ghost function StoredPayload(pass: Pass, slots: seq<Slot>, v: View, coerce: Coercion): Payload
    requires WellFormed(v)
  {
    Specialized(DefsOf(slots, v), |DefsOf(slots, v)|, PayloadOf(v.args), IsDynamic(v), Environment(pass), coerce)
  }

  /** A specialized operation gives its resolver the specialized payload read back;
      without a payload, every argument was omitted and stays so. */
  lemma StoredIsRead(pass: Pass, slots: seq<Slot>, v: View, coerce: Coercion, hash: Option<Hash>,
                     variables: Option<Slots>, after: Option<Hash>)
    requires Specializes(pass, slots, v, coerce)
    requires Gets(slots, SpecializedView(pass, slots, v, coerce), hash, variables, coerce, after)
    ensures after.Some? && IsMaterialized(StoredPayload(pass, slots, v, coerce), after.value)
  {
    var defs, w := DefsOf(slots, v), SpecializedView(pass, slots, v, coerce);
    if StoredPayload(pass, slots, v, coerce) == [] && |defs| > 0 {
      forall i | 0 <= i < |defs| ensures DefaultOutcome(defs[i], coerce) == Omitted {
        NothingStored(pass, slots, v, coerce, i);
      }
      NothingGiven(slots, w, coerce, hash, variables, after);
    }
  }

  lemma NothingGiven(slots: seq<Slot>, v: View, coerce: Coercion, hash: Option<Hash>, variables: Option<Slots>,
                     r: Option<Hash>)
    requires v.args.None? && Gets(slots, v, hash, variables, coerce, r)
    requires forall i :: 0 <= i < |DefsOf(slots, v)| ==> DefaultOutcome(DefsOf(slots, v)[i], coerce) == Omitted
    ensures r == Some(map[])
  {
    var defs := DefsOf(slots, v);
    forall i | 0 <= i < |defs|
      ensures OutcomeOf(defs, i, PayloadOf(v.args), IsDynamic(v), hash, variables, coerce) == Omitted
    {
      assert ArgumentOf([], defs[i].name).None?;
    }
    assert r.Some? && r.value == map[];
  }

  /** Where nothing is stored, each argument was omitted and has no default. */
  lemma NothingStored(pass: Pass, slots: seq<Slot>, v: View, coerce: Coercion, i: nat)
    requires Specializes(pass, slots, v, coerce) && i < |DefsOf(slots, v)|
    requires StoredPayload(pass, slots, v, coerce) == []
    ensures Ahead(pass, slots, v, i, coerce) == Omitted && DefaultOutcome(DefsOf(slots, v)[i], coerce) == Omitted
  {
    SpecializedEntry(DefsOf(slots, v), |DefsOf(slots, v)|, i, PayloadOf(v.args), IsDynamic(v), Environment(pass),
                     coerce);
  }

  /** What a pass stores can be read again. */
  lemma SpecializedIsWellFormed(pass: Pass, slots: seq<Slot>, v: View, coerce: Coercion)
    requires WellFormed(v) && UniqueDefs(DefsOf(slots, v))
    ensures WellFormed(SpecializedView(pass, slots, v, coerce))
  {
    if Coerces(pass, slots, v) {
      var defs := DefsOf(slots, v);
      SpecializedIsUnique(defs, |defs|, PayloadOf(v.args), IsDynamic(v), Environment(pass), coerce);
    }
  }

  lemma OncePassedShows(pass: Pass, slots: seq<Slot>, v: View, coerce: Coercion, hash: Option<Hash>,
                        variables: Option<Slots>, once: Option<Hash>)
    requires Specializes(pass, slots, v, coerce)
    requires Gets(slots, SpecializedView(pass, slots, v, coerce), hash, variables, coerce, once)
    ensures once.Some?
    ensures Shows(once.value, DefsOf(slots, v),
                  AheadReadBack(DefsOf(slots, v), PayloadOf(v.args), IsDynamic(v), Environment(pass), coerce))
  {
    StoredIsRead(pass, slots, v, coerce, hash, variables, once);
    StoredShows(DefsOf(slots, v), PayloadOf(v.args), IsDynamic(v), Environment(pass), coerce, once.value);
  }

  // ----- One pass -----

  /** After a pass, a resolver gets what the general route gives for the operation's
      arguments exactly when each is stored as that route has it. */
  lemma SpecializedArgumentsAgreeIff(pass: Pass, slots: seq<Slot>, v: View, coerce: Coercion, hash: Option<Hash>,
                                     variables: Option<Slots>, general: Option<Hash>, after: Option<Hash>)
    requires Specializes(pass, slots, v, coerce)
    requires IsGeneral(DefsOf(slots, v), PayloadOf(v.args), IsDynamic(v), Environment(pass), None, coerce, general)
    requires Gets(slots, SpecializedView(pass, slots, v, coerce), hash, variables, coerce, after)
    ensures after.Some?
    ensures general.Some? ==>
              (after == general <==>
               AllStoredAlike(DefsOf(slots, v), PayloadOf(v.args), IsDynamic(v), Environment(pass), coerce))
  {
    var defs, payload, isDynamic := DefsOf(slots, v), PayloadOf(v.args), IsDynamic(v);
    StoredIsRead(pass, slots, v, coerce, hash, variables, after);
    forall i | 0 <= i < |defs|
      ensures StoredAlike(defs, i, payload, isDynamic, Environment(pass), coerce) <==>
              ReadBackOutcome(AheadOf(defs, i, payload, isDynamic, Environment(pass), coerce))
              == OutcomeOf(defs, i, payload, isDynamic, Environment(pass), None, coerce)
    {
      StoredAlikeIffReadBack(defs, i, payload, isDynamic, Environment(pass), coerce);
    }
    if general.Some? {
      ReadBackIsGeneralIff(defs, payload, isDynamic, Environment(pass), Environment(pass), coerce,
                           after.value, general.value);
    }
  }

  // ----- A pass over stored arguments -----

  /** Coercing what a stored value reads back as gives a value that reads back alike. */
  predicate Settled(def: ArgDef, x: Value, coerce: Coercion) {
    coerce(def.typ, x).Some? && ReadBack(coerce(def.typ, x).value) == x
  }

  /** A stored argument is settled, and one not stored has no default. */
  predicate ArgumentSettled(def: ArgDef, stored: Option<Dynamic>, coerce: Coercion) {
    match stored
    case Some(d) => Settled(def, Materialize(d, None), coerce)
    case None => DefaultOutcome(def, coerce) == Omitted
  }

  ghost predicate NamesAreDefined(defs: seq<ArgDef>, payload: Payload) {
    forall k :: 0 <= k < |payload| ==> exists i :: 0 <= i < |defs| && defs[i].name == payload[k].name
  }

  ghost predicate AllSettled(defs: seq<ArgDef>, payload: Payload, coerce: Coercion)
    requires UniqueArgs(payload)
  {
    && NamesAreDefined(defs, payload)
    && forall i :: 0 <= i < |defs| ==> ArgumentSettled(defs[i], ArgumentOf(payload, defs[i].name), coerce)
  }

  function Held(stored: Option<Dynamic>): Outcome {
    if stored.Some? then Got(Materialize(stored.value, None)) else Omitted
  }

  ghost function AllHeld(defs: seq<ArgDef>, payload: Payload): (os: seq<Outcome>)
    requires UniqueArgs(payload)
    ensures |os| == |defs|
    ensures forall i :: 0 <= i < |defs| ==> os[i] == Held(ArgumentOf(payload, defs[i].name))
  {
    seq(|defs|, i requires 0 <= i < |defs| => Held(ArgumentOf(payload, defs[i].name)))
  }

  lemma HeldShows(defs: seq<ArgDef>, payload: Payload, h: Hash)
    requires UniqueArgs(payload) && IsMaterialized(payload, h) && NamesAreDefined(defs, payload)
    ensures Shows(h, defs, AllHeld(defs, payload))
  {
    forall i | 0 <= i < |defs|
      ensures match AllHeld(defs, payload)[i]
              case Got(x) => defs[i].name in h && h[defs[i].name] == x
              case _ => defs[i].name !in h
    {
      var stored := ArgumentOf(payload, defs[i].name);
      if stored.Some? {
        var k :| 0 <= k < |payload| && payload[k] == Arg(defs[i].name, stored.value);
      }
    }
  }

  lemma HeldIffSettled(pass: Pass, slots: seq<Slot>, v: View, coerce: Coercion, i: nat)
    requires Specializes(pass, slots, v, coerce) && !IsDynamic(v) && i < |DefsOf(slots, v)|
    ensures Ahead(pass, slots, v, i, coerce) != Failed
    ensures var stored := ArgumentOf(PayloadOf(v.args), DefsOf(slots, v)[i].name);
            ReadBackOutcome(Ahead(pass, slots, v, i, coerce)) == Held(stored) <==>
            ArgumentSettled(DefsOf(slots, v)[i], stored, coerce)
  {
  }

  /** Passing over a stored payload leaves what is read unchanged exactly when all of
      it is settled. */
  lemma StoredKeptIff(pass: Pass, slots: seq<Slot>, v: View, coerce: Coercion, hash: Option<Hash>,
                      variables: Option<Slots>, before: Option<Hash>, after: Option<Hash>)
    requires Specializes(pass, slots, v, coerce) && ReadsStored(slots, v)
    requires Gets(slots, v, hash, variables, coerce, before)
    requires Gets(slots, SpecializedView(pass, slots, v, coerce), hash, variables, coerce, after)
    ensures after == before <==> AllSettled(DefsOf(slots, v), PayloadOf(v.args), coerce)
  {
    var defs, payload := DefsOf(slots, v), PayloadOf(v.args);
    OncePassedShows(pass, slots, v, coerce, hash, variables, after);
    var ahead := AheadReadBack(defs, payload, false, Environment(pass), coerce);
    if NamesAreDefined(defs, payload) {
      HeldShows(defs, payload, before.value);
      forall i | 0 <= i < |defs|
        ensures ahead[i] != Failed
        ensures ahead[i] == AllHeld(defs, payload)[i] <==>
                ArgumentSettled(defs[i], ArgumentOf(payload, defs[i].name), coerce)
      {
        HeldIffSettled(pass, slots, v, coerce, i);
      }
      ShowSameIff(defs, after.value, before.value, ahead, AllHeld(defs, payload));
      assert ahead == AllHeld(defs, payload) <==> forall i :: 0 <= i < |defs| ==> ahead[i] == AllHeld(defs, payload)[i];
    } else {
      var k :| 0 <= k < |payload| && forall i :: 0 <= i < |defs| ==> defs[i].name != payload[k].name;
      assert payload[k].name in before.value && payload[k].name !in after.value;
    }
  }

  lemma StaticIgnoresVariables(defs: seq<ArgDef>, payload: Payload, hash: Option<Hash>, variables: Option<Slots>,
                               coerce: Coercion, r: Option<Hash>)
    requires UniqueArgs(payload) && IsGeneral(defs, payload, false, hash, variables, coerce, r)
    ensures IsGeneral(defs, payload, false, None, None, coerce, r)
  {
    forall i | 0 <= i < |defs|
      ensures OutcomeOf(defs, i, payload, false, None, None, coerce)
              == OutcomeOf(defs, i, payload, false, hash, variables, coerce)
    {
    }
  }

  lemma GetsOneThing(slots: seq<Slot>, v: View, hash: Option<Hash>, variables: Option<Slots>, coerce: Coercion,
                     r: Option<Hash>, r': Option<Hash>)
    requires Gets(slots, v, hash, variables, coerce, r) && Gets(slots, v, hash, variables, coerce, r')
    ensures r == r'
  {
    if r.Some? && r'.Some? {
      forall n ensures (n in r.value <==> n in r'.value) && (n in r.value ==> r.value[n] == r'.value[n]) {
        if i :| 0 <= i < |DefsOf(slots, v)| && DefsOf(slots, v)[i].name == n {
        }
      }
      assert r.value == r'.value;
    }
  }

  /** A pass, static or over the variables of the request, changes what a resolver gets
      from an operation it coerces exactly when, of stored arguments, some is not
      settled, and of others, some is not stored as the executor would have coerced it. */
  lemma PassKeepsArgumentsIff(pass: Pass, slots: seq<Slot>, v: View, hash: Option<Hash>, coerce: Coercion,
                              before: Option<Hash>, after: Option<Hash>)
    requires WellFormed(v) && UniqueDefs(DefsOf(slots, v)) && Keeps(pass, v) && Accepts(pass, slots, v, coerce)
    requires pass.DynamicPass? ==> hash == Some(pass.variables)
    requires Gets(slots, v, hash, None, coerce, before)
    requires Gets(slots, SpecializedView(pass, slots, v, coerce), hash, None, coerce, after)
    ensures !Coerces(pass, slots, v) ==> after == before
    ensures Coerces(pass, slots, v) && ReadsStored(slots, v) ==>
              (after == before <==> AllSettled(DefsOf(slots, v), PayloadOf(v.args), coerce))
    ensures Coerces(pass, slots, v) && !ReadsStored(slots, v) && before.Some? ==>
              (after == before <==>
               AllStoredAlike(DefsOf(slots, v), PayloadOf(v.args), IsDynamic(v), Environment(pass), coerce))
  {
    if !Coerces(pass, slots, v) {
      GetsOneThing(slots, v, hash, None, coerce, before, after);
    } else if ReadsStored(slots, v) {
      StoredKeptIff(pass, slots, v, coerce, hash, None, before, after);
    } else {
      if pass.StaticPass? {
        StaticIgnoresVariables(DefsOf(slots, v), PayloadOf(v.args), hash, None, coerce, before);
      }
      SpecializedArgumentsAgreeIff(pass, slots, v, coerce, hash, None, before, after);
    }
  }

  // ----- Two passes -----

  /** An outcome stored, read back and coerced again. */
  function Recoerced(def: ArgDef, o: Outcome, coerce: Coercion): Outcome {
    if o.Got? then FromCoercion(coerce(def.typ, ReadBack(o.value))) else o
  }

  /** What a second pass makes of an argument the first one coerced. */
  lemma AheadAgain(first: Pass, again: Pass, slots: seq<Slot>, v: View, coerce: Coercion, i: nat)
    requires Specializes(first, slots, v, coerce) && i < |DefsOf(slots, v)|
    ensures var w := SpecializedView(first, slots, v, coerce);
            && WellFormed(w) && DefsOf(slots, w) == DefsOf(slots, v) && !IsDynamic(w)
            && PayloadOf(w.args) == StoredPayload(first, slots, v, coerce)
            && Ahead(again, slots, w, i, coerce)
               == Recoerced(DefsOf(slots, v)[i], Ahead(first, slots, v, i, coerce), coerce)
  {
    var defs, w := DefsOf(slots, v), SpecializedView(first, slots, v, coerce);
    SpecializedIsWellFormed(first, slots, v, coerce);
    SpecializedEntry(defs, |defs|, i, PayloadOf(v.args), IsDynamic(v), Environment(first), coerce);
    ArgumentIsUnique(PayloadOf(w.args), defs[i].name, ArgumentOf(PayloadOf(w.args), defs[i].name),
                     Stored(Ahead(first, slots, v, i, coerce)));
  }

  /** A second pass fails exactly when it rejects what a stored value reads back as. */
  lemma AnotherPassAcceptsIff(first: Pass, again: Pass, slots: seq<Slot>, v: View, coerce: Coercion)
    requires Specializes(first, slots, v, coerce) && Keeps(again, SpecializedView(first, slots, v, coerce))
    ensures WellFormed(SpecializedView(first, slots, v, coerce))
    ensures Accepts(again, slots, SpecializedView(first, slots, v, coerce), coerce) <==>
            forall i :: 0 <= i < |DefsOf(slots, v)| ==>
              var o := Ahead(first, slots, v, i, coerce);
              o.Got? ==> coerce(DefsOf(slots, v)[i].typ, ReadBack(o.value)).Some?
  {
    var defs, w := DefsOf(slots, v), SpecializedView(first, slots, v, coerce);
    AllAheadAgain(first, again, slots, v, coerce);
  }

  lemma AllAheadAgain(first: Pass, again: Pass, slots: seq<Slot>, v: View, coerce: Coercion)
    requires Specializes(first, slots, v, coerce)
    ensures var defs, w := DefsOf(slots, v), SpecializedView(first, slots, v, coerce);
            && WellFormed(w) && DefsOf(slots, w) == defs
            && forall i :: 0 <= i < |defs| ==>
                 && Ahead(first, slots, v, i, coerce) != Failed
                 && (!Coerces(again, slots, w) ==> Ahead(first, slots, v, i, coerce) == Omitted)
                 && Ahead(again, slots, w, i, coerce) == Recoerced(defs[i], Ahead(first, slots, v, i, coerce), coerce)
  {
    var defs, w := DefsOf(slots, v), SpecializedView(first, slots, v, coerce);
    SpecializedIsWellFormed(first, slots, v, coerce);
    forall i | 0 <= i < |defs|
      ensures Ahead(first, slots, v, i, coerce) != Failed
      ensures !Coerces(again, slots, w) ==> Ahead(first, slots, v, i, coerce) == Omitted
      ensures Ahead(again, slots, w, i, coerce) == Recoerced(defs[i], Ahead(first, slots, v, i, coerce), coerce)
    {
      AheadAgain(first, again, slots, v, coerce, i);
      if !Coerces(again, slots, w) {
        NothingStored(first, slots, v, coerce, i);
      }
    }
  }

  ghost function TwiceOutcomes(first: Pass, slots: seq<Slot>, v: View, coerce: Coercion): (os: seq<Outcome>)
    requires WellFormed(v)
    ensures |os| == |DefsOf(slots, v)|
    ensures forall i :: 0 <= i < |os| ==>
              os[i] == ReadBackOutcome(Recoerced(DefsOf(slots, v)[i], Ahead(first, slots, v, i, coerce), coerce))
  {
    seq(|DefsOf(slots, v)|, i requires 0 <= i < |DefsOf(slots, v)| =>
      ReadBackOutcome(Recoerced(DefsOf(slots, v)[i], Ahead(first, slots, v, i, coerce), coerce)))
  }

  /** Both passes keep and accept the operation, the first coercing its arguments. */
  ghost predicate PassesTwice(first: Pass, again: Pass, slots: seq<Slot>, v: View, coerce: Coercion) {
    && Specializes(first, slots, v, coerce)
    && var w := SpecializedView(first, slots, v, coerce);
       WellFormed(w) && Keeps(again, w) && Accepts(again, slots, w, coerce)
  }

  ghost function TwiceSpecialized(first: Pass, again: Pass, slots: seq<Slot>, v: View, coerce: Coercion): View
    requires PassesTwice(first, again, slots, v, coerce)
  {
    SpecializedView(again, slots, SpecializedView(first, slots, v, coerce), coerce)
  }

  /** After two passes a resolver gets every value coerced a second time. */
  lemma TwicePassedShows(first: Pass, again: Pass, slots: seq<Slot>, v: View, coerce: Coercion, hash: Option<Hash>,
                         variables: Option<Slots>, twice: Option<Hash>)
    requires PassesTwice(first, again, slots, v, coerce)
    requires Gets(slots, TwiceSpecialized(first, again, slots, v, coerce), hash, variables, coerce, twice)
    ensures twice.Some? && Shows(twice.value, DefsOf(slots, v), TwiceOutcomes(first, slots, v, coerce))
  {
    var w := SpecializedView(first, slots, v, coerce);
    TwiceIsOnce(first, again, slots, v, coerce);
    if Coerces(again, slots, w) {
      OncePassedShows(again, slots, w, coerce, hash, variables, twice);
    } else {
      OncePassedShows(first, slots, v, coerce, hash, variables, twice);
    }
  }

  lemma TwiceIsOnce(first: Pass, again: Pass, slots: seq<Slot>, v: View, coerce: Coercion)
    requires PassesTwice(first, again, slots, v, coerce)
    ensures var defs, w := DefsOf(slots, v), SpecializedView(first, slots, v, coerce);
            && DefsOf(slots, w) == defs
            && TwiceOutcomes(first, slots, v, coerce)
               == if Coerces(again, slots, w)
                  then AheadReadBack(defs, PayloadOf(w.args), IsDynamic(w), Environment(again), coerce)
                  else AheadReadBack(defs, PayloadOf(v.args), IsDynamic(v), Environment(first), coerce)
  {
    AllAheadAgain(first, again, slots, v, coerce);
  }

  /** A second pass leaves what a resolver gets unchanged exactly when every stored
      value is settled; arguments not stored stay omitted. */
  lemma AnotherPassKeepsIff(first: Pass, again: Pass, slots: seq<Slot>, v: View, coerce: Coercion, hash: Option<Hash>,
                            variables: Option<Slots>, once: Option<Hash>, twice: Option<Hash>)
    requires PassesTwice(first, again, slots, v, coerce)
    requires Gets(slots, SpecializedView(first, slots, v, coerce), hash, variables, coerce, once)
    requires Gets(slots, TwiceSpecialized(first, again, slots, v, coerce), hash, variables, coerce, twice)
    ensures twice == once <==> StoredAreSettled(first, slots, v, coerce)
  {
    OncePassedShows(first, slots, v, coerce, hash, variables, once);
    TwicePassedShows(first, again, slots, v, coerce, hash, variables, twice);
    TwiceOutcomesSettleIff(first, again, slots, v, coerce);
    ShowSameIff(DefsOf(slots, v), twice.value, once.value, TwiceOutcomes(first, slots, v, coerce),
                AheadReadBack(DefsOf(slots, v), PayloadOf(v.args), IsDynamic(v), Environment(first), coerce));
  }

  /** Every value a pass stores is settled. */
  ghost predicate StoredAreSettled(pass: Pass, slots: seq<Slot>, v: View, coerce: Coercion)
    requires WellFormed(v)
  {
    forall i :: 0 <= i < |DefsOf(slots, v)| ==>
      var o := Ahead(pass, slots, v, i, coerce);
      o.Got? ==> Settled(DefsOf(slots, v)[i], ReadBack(o.value), coerce)
  }

  lemma TwiceOutcomesSettleIff(first: Pass, again: Pass, slots: seq<Slot>, v: View, coerce: Coercion)
    requires PassesTwice(first, again, slots, v, coerce)
    ensures AllSucceed(TwiceOutcomes(first, slots, v, coerce))
    ensures AllSucceed(AheadReadBack(DefsOf(slots, v), PayloadOf(v.args), IsDynamic(v), Environment(first), coerce))
    ensures TwiceOutcomes(first, slots, v, coerce)
            == AheadReadBack(DefsOf(slots, v), PayloadOf(v.args), IsDynamic(v), Environment(first), coerce) <==>
            StoredAreSettled(first, slots, v, coerce)
  {
    var defs := DefsOf(slots, v);
    var os := AheadReadBack(defs, PayloadOf(v.args), IsDynamic(v), Environment(first), coerce);
    var os' := TwiceOutcomes(first, slots, v, coerce);
    AnotherPassAcceptsIff(first, again, slots, v, coerce);
    forall i | 0 <= i < |defs|
      ensures os[i] != Failed && os'[i] != Failed
      ensures os'[i] == os[i] <==>
              (var o := Ahead(first, slots, v, i, coerce); o.Got? ==> Settled(defs[i], ReadBack(o.value), coerce))
    {
      assert os[i] == ReadBackOutcome(Ahead(first, slots, v, i, coerce));
    }
    assert os' == os <==> forall i :: 0 <= i < |defs| ==> os'[i] == os[i];
  }

  /** An argument coerced twice comes out as the general route has it: a missing
      variable when null, coerced twice, is the default; anything else when coercing
      its value once more reproduces it. */
  ghost predicate TwiceAlike(defs: seq<ArgDef>, i: nat, payload: Payload, isDynamic: bool, hash: Option<Hash>,
                             coerce: Coercion)
    requires i < |defs| && UniqueArgs(payload)
  {
    if RefersToMissing(defs, i, payload, isDynamic, hash) then
      ReadBackOutcome(Recoerced(defs[i], FromCoercion(coerce(defs[i].typ, Undef)), coerce))
      == DefaultOutcome(defs[i], coerce)
    else
      var o := OutcomeOf(defs, i, payload, isDynamic, hash, None, coerce);
      o.Got? ==> ReadBackOutcome(FromCoercion(coerce(defs[i].typ, ReadBack(o.value)))) == o
  }

  ghost predicate AllTwiceAlike(defs: seq<ArgDef>, payload: Payload, isDynamic: bool, hash: Option<Hash>,
                                coerce: Coercion)
    requires UniqueArgs(payload)
  {
    forall i :: 0 <= i < |defs| ==> TwiceAlike(defs, i, payload, isDynamic, hash, coerce)
  }

  lemma TwiceAlikeIffOutcome(defs: seq<ArgDef>, i: nat, payload: Payload, isDynamic: bool, hash: Option<Hash>,
                             coerce: Coercion)
    requires i < |defs| && UniqueArgs(payload)
    ensures TwiceAlike(defs, i, payload, isDynamic, hash, coerce) <==>
            ReadBackOutcome(Recoerced(defs[i], AheadOf(defs, i, payload, isDynamic, hash, coerce), coerce))
            == OutcomeOf(defs, i, payload, isDynamic, hash, None, coerce)
  {
    var raw := ArgumentOf(payload, defs[i].name);
    if raw.Some? && raw.value.DVariable? {
      IndexIsIgnored(raw.value.name, raw.value.index, hash);
    }
  }

  /** After both passes a resolver gets what the general route gives exactly when
      every argument coerced twice comes out as that route has it. */
  lemma TwoPassesAgreeIff(first: Pass, again: Pass, slots: seq<Slot>, v: View, coerce: Coercion, hash: Option<Hash>,
                          variables: Option<Slots>, general: Hash, twice: Option<Hash>)
    requires PassesTwice(first, again, slots, v, coerce)
    requires IsGeneral(DefsOf(slots, v), PayloadOf(v.args), IsDynamic(v), Environment(first), None, coerce,
                       Some(general))
    requires Gets(slots, TwiceSpecialized(first, again, slots, v, coerce), hash, variables, coerce, twice)
    ensures twice == Some(general) <==>
            AllTwiceAlike(DefsOf(slots, v), PayloadOf(v.args), IsDynamic(v), Environment(first), coerce)
  {
    TwicePassedShows(first, again, slots, v, coerce, hash, variables, twice);
    TwiceOutcomesAgreeIff(first, again, slots, v, coerce);
    GeneralShows(DefsOf(slots, v), PayloadOf(v.args), IsDynamic(v), Environment(first), coerce, general);
    ShowSameIff(DefsOf(slots, v), twice.value, general, TwiceOutcomes(first, slots, v, coerce),
                GeneralOutcomes(DefsOf(slots, v), PayloadOf(v.args), IsDynamic(v), Environment(first), coerce));
  }

  lemma GeneralShows(defs: seq<ArgDef>, payload: Payload, isDynamic: bool, hash: Option<Hash>, coerce: Coercion,
                     general: Hash)
    requires UniqueArgs(payload) && IsGeneral(defs, payload, isDynamic, hash, None, coerce, Some(general))
    ensures Shows(general, defs, GeneralOutcomes(defs, payload, isDynamic, hash, coerce))
    ensures AllSucceed(GeneralOutcomes(defs, payload, isDynamic, hash, coerce))
  {
  }

  lemma TwiceOutcomesAgreeIff(first: Pass, again: Pass, slots: seq<Slot>, v: View, coerce: Coercion)
    requires PassesTwice(first, again, slots, v, coerce)
    ensures AllSucceed(TwiceOutcomes(first, slots, v, coerce))
    ensures TwiceOutcomes(first, slots, v, coerce)
            == GeneralOutcomes(DefsOf(slots, v), PayloadOf(v.args), IsDynamic(v), Environment(first), coerce) <==>
            AllTwiceAlike(DefsOf(slots, v), PayloadOf(v.args), IsDynamic(v), Environment(first), coerce)
  {
    var defs, payload, isDynamic := DefsOf(slots, v), PayloadOf(v.args), IsDynamic(v);
    var os := GeneralOutcomes(defs, payload, isDynamic, Environment(first), coerce);
    var os' := TwiceOutcomes(first, slots, v, coerce);
    AnotherPassAcceptsIff(first, again, slots, v, coerce);
    forall i | 0 <= i < |defs|
      ensures os'[i] == os[i] <==> TwiceAlike(defs, i, payload, isDynamic, Environment(first), coerce)
    {
      TwiceAlikeIffOutcome(defs, i, payload, isDynamic, Environment(first), coerce);
    }
    assert os' == os <==> forall i :: 0 <= i < |defs| ==> os'[i] == os[i];
  }

  const ARG_X: ArgDef := ArgDef("x", "S", None, None)

  /** An operation on `field(x: S)` with the given arguments. */
  function FieldCall(mode: Mode, payload: Payload): View {
    View(0, 0, [], false, NoneMode, None, true, mode, Some(payload))
  }

  lemma VariableStored(coerce: Coercion)
    ensures var v := FieldCall(DynamicMode, [Arg("x", DVariable("v", -1))]);
            var first, slots := DynamicPass(map["v" := Int(2)]), [Slot([ARG_X])];
            && Specializes(first, slots, v, coerce)
            && OutcomeOf([ARG_X], 0, v.args.value, true, Environment(first), None, coerce) == Got(Int(2))
            && SpecializedView(first, slots, v, coerce) == FieldCall(StaticMode, [Arg("x", DScalar(Int(2)))])
  {
    var payload := [Arg("x", DVariable("v", -1))];
    assert IsArgument(payload, "x", Some(payload[0].value));
    ArgumentIsUnique(payload, "x", ArgumentOf(payload, "x"), Some(payload[0].value));
    OneStored(ARG_X, payload, true, Some(map["v" := Int(2)]), coerce, Int(2));
  }

  lemma ScalarStored(coerce: Coercion)
    requires coerce("S", Int(2)) == Some(Int(3))
    ensures var w, slots := FieldCall(StaticMode, [Arg("x", DScalar(Int(2)))]), [Slot([ARG_X])];
            && Specializes(StaticPass, slots, w, coerce)
            && SpecializedView(StaticPass, slots, w, coerce) == FieldCall(StaticMode, [Arg("x", DScalar(Int(3)))])
  {
    var payload := [Arg("x", DScalar(Int(2)))];
    assert IsArgument(payload, "x", Some(payload[0].value));
    ArgumentIsUnique(payload, "x", ArgumentOf(payload, "x"), Some(payload[0].value));
    OneStored(ARG_X, payload, false, None, coerce, Int(3));
  }

  /** `field(x: S)` called as `field(x: $v)` with 2, where coercing 2 gives 3: the
      general route gives 2, which is prepared already; the pass over the variables
      stores 2, and the pass over the stored payload makes it 3. */
  lemma StoredValueIsCoercedAgain(coerce: Coercion)
    requires coerce("S", Int(2)) == Some(Int(3))
    ensures var v := FieldCall(DynamicMode, [Arg("x", DVariable("v", -1))]);
            var first, slots := DynamicPass(map["v" := Int(2)]), [Slot([ARG_X])];
            && PassesTwice(first, StaticPass, slots, v, coerce)
            && OutcomeOf([ARG_X], 0, v.args.value, true, Environment(first), None, coerce) == Got(Int(2))
            && SpecializedView(first, slots, v, coerce) == FieldCall(StaticMode, [Arg("x", DScalar(Int(2)))])
            && TwiceSpecialized(first, StaticPass, slots, v, coerce)
               == FieldCall(StaticMode, [Arg("x", DScalar(Int(3)))])
  {
    VariableStored(coerce);
    ScalarStored(coerce);
  }

  /** A stored scalar reaches the resolver under its name as it is stored, and a field without arguments gets none. */
  lemma StoredScalarIsGot(name: string, x: Value, coerce: Coercion, hash: Option<Hash>, r: Option<Hash>)
    requires x.Int?
    ensures Gets([Slot([ARG_X])], FieldCall(StaticMode, [Arg(name, DScalar(x))]), hash, None, coerce, r)
            <==> r == Some(map[name := x])
    ensures Gets([Slot([])], View(0, 0, [], false, NoneMode, None, false, NoneMode, None), hash, None, coerce, r)
            <==> r == Some(map[])
  {
    var payload := [Arg(name, DScalar(x))];
    assert ReadsStored([Slot([ARG_X])], FieldCall(StaticMode, payload));
    assert payload[0].name == name && Materialize(payload[0].value, None) == x;
    assert IsMaterialized(payload, map[name := x]);
    if r.Some? && IsMaterialized(payload, r.value) {
      assert r.value == map[name := x];
    }
  }

  lemma OneStored(def: ArgDef, payload: Payload, isDynamic: bool, hash: Option<Hash>, coerce: Coercion, x: Value)
    requires UniqueArgs(payload) && AheadOf([def], 0, payload, isDynamic, hash, coerce) == Got(x)
    ensures Specialized([def], 1, payload, isDynamic, hash, coerce) == [Arg(def.name, FromValue(x))]
  {
    assert Specialized([def], 0, payload, isDynamic, hash, coerce) == [];
  }
}
