/**
 Program specialization: two in-place passes over each block's operations that
 evaluate skip and include guards ahead of time, drop the operations whose guards
 fail, coerce arguments, and compact the operation array.
 */
module Specialization {
  import opened Values
  import opened VariableSlots
  import opened ArgumentCoercion

  /** How a payload depends on the request: absent, on nothing, or on variables. */
  datatype Mode = NoneMode | StaticMode | DynamicMode

  /** A slot, reduced to the definitions of its arguments. */
  datatype Slot = Slot(argDefs: seq<ArgDef>)

  /** An operation. Its payloads are owned memory, referred to by address. */
  datatype Op = Op(slotIndex: int, childBlock: int, children: seq<int>,
                   hasDirectives: bool, directivesMode: Mode, directives: Option<nat>,
                   hasArgs: bool, argsMode: Mode, args: Option<nat>)

  /** A cleared operation. */
  const ZERO_OP: Op := Op(0, 0, [], false, NoneMode, None, false, NoneMode, None)

  // ----- Operations by value -----

  /** An operation with its payloads read out. */
  datatype View = View(slotIndex: int, childBlock: int, children: seq<int>,
                       hasDirectives: bool, directivesMode: Mode, guards: Option<seq<Guard>>,
                       hasArgs: bool, argsMode: Mode, args: Option<Payload>)

  /** What a pass works on: the mode it evaluates and the variables it knows. */
  datatype Pass = StaticPass | DynamicPass(variables: Hash)

  function Evaluated(pass: Pass): Mode {
    if pass.StaticPass? then StaticMode else DynamicMode
  }

  function Environment(pass: Pass): Option<Hash> {
    if pass.StaticPass? then None else Some(pass.variables)
  }

  predicate Evaluates(pass: Pass, hasDirectives: bool, mode: Mode) {
    hasDirectives && mode == Evaluated(pass)
  }

  ghost predicate Keeps(pass: Pass, v: View) {
    Evaluates(pass, v.hasDirectives, v.directivesMode) && v.guards.Some? ==>
      GuardsPass(v.guards.value, Environment(pass), None)
  }

  predicate SlotInRange(slots: seq<Slot>, slotIndex: int) {
    0 <= slotIndex < |slots|
  }

  /** Whether a pass coerces the arguments of an operation. */
  predicate CoercesArgs(pass: Pass, slots: seq<Slot>, slotIndex: int, hasArgs: bool, argsMode: Mode) {
    && SlotInRange(slots, slotIndex)
    && (pass.StaticPass? ==> argsMode == StaticMode)
    && (|slots[slotIndex].argDefs| > 0 || hasArgs)
  }

  function PayloadOf(args: Option<Payload>): Payload {
    if args.Some? then args.value else []
  }

  ghost predicate WellFormed(v: View) {
    UniqueArgs(PayloadOf(v.args))
  }

  /** A pass takes an operation: it drops it, or rejects none of its arguments. */
  ghost predicate Accepts(pass: Pass, slots: seq<Slot>, v: View, coerce: Coercion)
    requires WellFormed(v)
  {
    Keeps(pass, v) && CoercesArgs(pass, slots, v.slotIndex, v.hasArgs, v.argsMode) ==>
      NoneFails(slots[v.slotIndex].argDefs, PayloadOf(v.args), v.argsMode == DynamicMode, Environment(pass), coerce)
  }

  /** What an operation that is kept becomes. */
  ghost function SpecializedView(pass: Pass, slots: seq<Slot>, v: View, coerce: Coercion): View
    requires WellFormed(v)
  {
    var w := if Evaluates(pass, v.hasDirectives, v.directivesMode)
             then v.(hasDirectives := false, directivesMode := NoneMode, guards := None) else v;
    if CoercesArgs(pass, slots, v.slotIndex, v.hasArgs, v.argsMode) then
      var defs := slots[v.slotIndex].argDefs;
      var payload := Specialized(defs, |defs|, PayloadOf(v.args), v.argsMode == DynamicMode, Environment(pass), coerce);
      if payload == [] then w.(hasArgs := false, argsMode := NoneMode, args := None)
      else w.(hasArgs := true, argsMode := StaticMode, args := Some(payload))
    else w
  }

  ghost predicate AllAccepted(pass: Pass, slots: seq<Slot>, vs: seq<View>, coerce: Coercion)
    requires forall i :: 0 <= i < |vs| ==> WellFormed(vs[i])
  {
    forall i :: 0 <= i < |vs| ==> Accepts(pass, slots, vs[i], coerce)
  }

  /** The operations of a block after a pass: the kept ones, in order. */
  ghost function SpecializedViews(pass: Pass, slots: seq<Slot>, vs: seq<View>, coerce: Coercion): seq<View>
    requires forall i :: 0 <= i < |vs| ==> WellFormed(vs[i])
  {
    if vs == [] then []
    else
      var n := |vs| - 1;
      SpecializedViews(pass, slots, vs[..n], coerce)
      + (if Keeps(pass, vs[n]) then [SpecializedView(pass, slots, vs[n], coerce)] else [])
  }

  // ----- What a program shows -----

  datatype Tree = Tree(slotIndex: int, children: seq<seq<Tree>>)

  /** Whether the executor runs an operation. */
  ghost predicate Visible(v: View, hash: Option<Hash>, slots: Option<Slots>) {
    v.hasDirectives && v.directivesMode != NoneMode && v.guards.Some? ==> GuardsPass(v.guards.value, hash, slots)
  }

  /** The operations that run in a block, in order, each with its slot and the
      trees of its child blocks, unfolded to the given depth. */
  ghost function BlockTree(blocks: seq<seq<View>>, b: int, hash: Option<Hash>, depth: nat): seq<Tree>
    decreases depth, 1, 0
  {
    if depth == 0 || !(0 <= b < |blocks|) then [] else ViewsTree(blocks, blocks[b], hash, depth)
  }

  ghost function ViewsTree(blocks: seq<seq<View>>, vs: seq<View>, hash: Option<Hash>, depth: nat): seq<Tree>
    requires depth > 0
    decreases depth, 0, |vs|
  {
    if vs == [] then []
    else
      var n := |vs| - 1;
      ViewsTree(blocks, vs[..n], hash, depth)
      + (if Visible(vs[n], hash, None)
         then [ViewTree(blocks, vs[n].slotIndex, vs[n].childBlock, vs[n].children, hash, depth)]
         else [])
  }

  ghost function ViewTree(blocks: seq<seq<View>>, slotIndex: int, childBlock: int, children: seq<int>,
                          hash: Option<Hash>, depth: nat): Tree
    requires depth > 0
    decreases depth, 0, 0
  {
    var below := [childBlock] + children;
    Tree(slotIndex, seq(|below|, i requires 0 <= i < |below| => BlockTree(blocks, below[i], hash, depth - 1)))
  }

  /** Guards the compiler marks static do not mention variables. */
  ghost predicate StaticGuardsAreClosed(vs: seq<View>) {
    forall i :: 0 <= i < |vs| && vs[i].directivesMode == StaticMode && vs[i].guards.Some? ==>
      forall j :: 0 <= j < |vs[i].guards.value| ==> !vs[i].guards.value[j].expr.DVariable?
  }

  ghost predicate ProgramOk(pass: Pass, blocks: seq<seq<View>>) {
    && (forall b, i :: 0 <= b < |blocks| && 0 <= i < |blocks[b]| ==> WellFormed(blocks[b][i]))
    && (pass.StaticPass? ==> forall b :: 0 <= b < |blocks| ==> StaticGuardsAreClosed(blocks[b]))
  }

  ghost function SpecializedProgram(pass: Pass, slots: seq<seq<Slot>>, blocks: seq<seq<View>>,
                                    coerce: Coercion): seq<seq<View>>
    requires |slots| == |blocks|
    requires forall b, i :: 0 <= b < |blocks| && 0 <= i < |blocks[b]| ==> WellFormed(blocks[b][i])
  {
    seq(|blocks|, b requires 0 <= b < |blocks| => SpecializedViews(pass, slots[b], blocks[b], coerce))
  }

  lemma ClosedGuardsIgnoreVariables(guards: seq<Guard>, hash: Option<Hash>)
    requires forall j :: 0 <= j < |guards| ==> !guards[j].expr.DVariable?
    ensures GuardsPass(guards, None, None) <==> GuardsPass(guards, hash, None)
  {
  }

  /** What a pass evaluates can be evaluated: static guards mention no variables, and
      the others are read in the variables of the request. */
  ghost predicate Decidable(pass: Pass, v: View, hash: Option<Hash>) {
    match pass
    case StaticPass => v.directivesMode == StaticMode && v.guards.Some? ==>
                         forall j :: 0 <= j < |v.guards.value| ==> !v.guards.value[j].expr.DVariable?
    case DynamicPass(variables) => hash == Some(variables)
  }

  /** A dropped operation does not run, and a kept one runs as before. */
  lemma PassKeepsVisibility(pass: Pass, slots: seq<Slot>, v: View, coerce: Coercion, hash: Option<Hash>)
    requires WellFormed(v)
    requires Decidable(pass, v, hash)
    ensures Keeps(pass, v) ==>
              (Visible(SpecializedView(pass, slots, v, coerce), hash, None) <==> Visible(v, hash, None))
    ensures !Keeps(pass, v) ==> !Visible(v, hash, None)
  {
    if pass.StaticPass? && v.directivesMode == StaticMode && v.guards.Some? {
      ClosedGuardsIgnoreVariables(v.guards.value, hash);
    }
  }

  /** A pass leaves the tree of what runs unchanged, at every depth. */
  lemma {:induction false} PassKeepsTree(pass: Pass, slots: seq<seq<Slot>>, blocks: seq<seq<View>>, coerce: Coercion,
                                         hash: Option<Hash>, b: int, depth: nat)
    requires |slots| == |blocks| && ProgramOk(pass, blocks)
    requires pass.DynamicPass? ==> hash == Some(pass.variables)
    ensures BlockTree(SpecializedProgram(pass, slots, blocks, coerce), b, hash, depth)
            == BlockTree(blocks, b, hash, depth)
    decreases depth, 1, 0
  {
    if depth > 0 && 0 <= b < |blocks| {
      PassKeepsViews(pass, slots, blocks, coerce, hash, b, |blocks[b]|, depth);
      assert blocks[b][..|blocks[b]|] == blocks[b];
    }
  }

  lemma StaticGuardsOf(pass: Pass, blocks: seq<seq<View>>, b: nat, i: nat, hash: Option<Hash>)
    requires ProgramOk(pass, blocks) && b < |blocks| && i < |blocks[b]|
    requires pass.DynamicPass? ==> hash == Some(pass.variables)
    ensures WellFormed(blocks[b][i]) && Decidable(pass, blocks[b][i], hash)
  {
    assert pass.StaticPass? ==> StaticGuardsAreClosed(blocks[b]);
  }

  lemma PrefixIsWellFormed(pass: Pass, blocks: seq<seq<View>>, b: nat, k: nat)
    requires ProgramOk(pass, blocks) && b < |blocks| && k <= |blocks[b]|
    ensures forall i :: 0 <= i < k ==> WellFormed(blocks[b][..k][i])
  {
  }

  lemma {:induction false} PassKeepsViews(pass: Pass, slots: seq<seq<Slot>>, blocks: seq<seq<View>>, coerce: Coercion,
                                          hash: Option<Hash>, b: nat, k: nat, depth: nat)
    requires |slots| == |blocks| && ProgramOk(pass, blocks) && b < |blocks| && k <= |blocks[b]| && depth > 0
    requires pass.DynamicPass? ==> hash == Some(pass.variables)
    ensures var after := SpecializedProgram(pass, slots, blocks, coerce);
            ViewsTree(after, SpecializedViews(pass, slots[b], blocks[b][..k], coerce), hash, depth)
            == ViewsTree(blocks, blocks[b][..k], hash, depth)
    decreases depth, 0, k
  {
    if k > 0 {
      var v, vs := blocks[b][k - 1], blocks[b][..k - 1];
      PassKeepsViews(pass, slots, blocks, coerce, hash, b, k - 1, depth);
      assert blocks[b][..k] == vs + [v];
      PrefixIsWellFormed(pass, blocks, b, k - 1);
      StaticGuardsOf(pass, blocks, b, k - 1, hash);
      PassKeepsViewTree(pass, slots, blocks, coerce, hash, v.slotIndex, v.childBlock, v.children, depth);
      PassKeepsLastView(pass, slots[b], blocks, SpecializedProgram(pass, slots, blocks, coerce), vs, v, coerce, hash,
                        depth);
    }
  }

  lemma PassKeepsLastView(pass: Pass, slots: seq<Slot>, blocks: seq<seq<View>>, after: seq<seq<View>>, vs: seq<View>,
                          v: View, coerce: Coercion, hash: Option<Hash>, depth: nat)
    requires depth > 0 && WellFormed(v) && forall i :: 0 <= i < |vs| ==> WellFormed(vs[i])
    requires Decidable(pass, v, hash)
    requires ViewsTree(after, SpecializedViews(pass, slots, vs, coerce), hash, depth)
             == ViewsTree(blocks, vs, hash, depth)
    requires ViewTree(after, v.slotIndex, v.childBlock, v.children, hash, depth)
             == ViewTree(blocks, v.slotIndex, v.childBlock, v.children, hash, depth)
    ensures ViewsTree(after, SpecializedViews(pass, slots, vs + [v], coerce), hash, depth)
            == ViewsTree(blocks, vs + [v], hash, depth)
  {
    SpecializedAppend(pass, slots, vs, v, coerce);
    PassKeepsVisibility(pass, slots, v, coerce, hash);
    var kept := SpecializedViews(pass, slots, vs, coerce);
    if Keeps(pass, v) {
      AppendAlike(after, kept, SpecializedView(pass, slots, v, coerce), blocks, vs, v, hash, depth);
    } else {
      AppendView(blocks, vs, v, hash, depth);
    }
  }

  lemma SpecializedAppend(pass: Pass, slots: seq<Slot>, vs: seq<View>, v: View, coerce: Coercion)
    requires WellFormed(v) && forall i :: 0 <= i < |vs| ==> WellFormed(vs[i])
    ensures SpecializedViews(pass, slots, vs + [v], coerce)
            == if Keeps(pass, v)
               then SpecializedViews(pass, slots, vs, coerce) + [SpecializedView(pass, slots, v, coerce)]
               else SpecializedViews(pass, slots, vs, coerce)
    ensures var w := SpecializedView(pass, slots, v, coerce);
            w.slotIndex == v.slotIndex && w.childBlock == v.childBlock && w.children == v.children
  {
    assert (vs + [v])[..|vs|] == vs;
  }

  lemma AppendAlike(after: seq<seq<View>>, ws: seq<View>, w: View, blocks: seq<seq<View>>, vs: seq<View>, v: View,
                    hash: Option<Hash>, depth: nat)
    requires depth > 0 && w.slotIndex == v.slotIndex && w.childBlock == v.childBlock && w.children == v.children
    requires Visible(w, hash, None) <==> Visible(v, hash, None)
    requires ViewsTree(after, ws, hash, depth) == ViewsTree(blocks, vs, hash, depth)
    requires ViewTree(after, v.slotIndex, v.childBlock, v.children, hash, depth)
             == ViewTree(blocks, v.slotIndex, v.childBlock, v.children, hash, depth)
    ensures ViewsTree(after, ws + [w], hash, depth) == ViewsTree(blocks, vs + [v], hash, depth)
  {
    AppendView(after, ws, w, hash, depth);
    AppendView(blocks, vs, v, hash, depth);
  }

  lemma AppendView(blocks: seq<seq<View>>, vs: seq<View>, v: View, hash: Option<Hash>, depth: nat)
    requires depth > 0
    ensures ViewsTree(blocks, vs + [v], hash, depth)
            == if Visible(v, hash, None)
               then ViewsTree(blocks, vs, hash, depth)
               + [ViewTree(blocks, v.slotIndex, v.childBlock, v.children, hash, depth)]
               else ViewsTree(blocks, vs, hash, depth)
  {
    assert (vs + [v])[..|vs|] == vs;
  }

  lemma {:induction false} PassKeepsViewTree(pass: Pass, slots: seq<seq<Slot>>, blocks: seq<seq<View>>,
                                             coerce: Coercion, hash: Option<Hash>, slotIndex: int, childBlock: int,
                                             children: seq<int>, depth: nat)
    requires |slots| == |blocks| && ProgramOk(pass, blocks) && depth > 0
    requires pass.DynamicPass? ==> hash == Some(pass.variables)
    ensures ViewTree(SpecializedProgram(pass, slots, blocks, coerce), slotIndex, childBlock, children, hash, depth)
            == ViewTree(blocks, slotIndex, childBlock, children, hash, depth)
    decreases depth, 0, 0
  {
    var below := [childBlock] + children;
    forall i | 0 <= i < |below|
      ensures BlockTree(SpecializedProgram(pass, slots, blocks, coerce), below[i], hash, depth - 1)
              == BlockTree(blocks, below[i], hash, depth - 1)
    {
      PassKeepsTree(pass, slots, blocks, coerce, hash, below[i], depth - 1);
    }
  }

  // ----- What a pass does to single operations -----

  lemma OneOperation(pass: Pass, slots: seq<Slot>, v: View, coerce: Coercion)
    requires WellFormed(v)
    ensures SpecializedViews(pass, slots, [v], coerce)
            == if Keeps(pass, v) then [SpecializedView(pass, slots, v, coerce)] else []
    ensures SpecializedProgram(pass, [slots], [[v]], coerce) == [SpecializedViews(pass, slots, [v], coerce)]
  {
    assert [v][..0] == [];
  }

  /** The pass over the variables keeps an operation under `@include(if: $x)` exactly
      when `x` is true, and one under `@skip(if: $x)` exactly when it is false. */
  lemma VariableDecides(slots: seq<Slot>, v: View, x: string, index: int, b: bool, variables: Hash, coerce: Coercion)
    requires WellFormed(v) && v.hasDirectives && v.directivesMode == DynamicMode
    requires x in variables && variables[x] == Bool(b)
    ensures var after := SpecializedProgram(DynamicPass(variables), [slots], [[v]], coerce);
            && (v.guards == Some([Guard(Include, DVariable(x, index))]) ==> |after[0]| == if b then 1 else 0)
            && (v.guards == Some([Guard(Skip, DVariable(x, index))]) ==> |after[0]| == if b then 0 else 1)
  {
    OneOperation(DynamicPass(variables), slots, v, coerce);
    OneGuard(DVariable(x, index), Some(variables), None);
  }

  /** A missing variable counts as false, and so do the values that are not true. */
  lemma ValueDecides(slots: seq<Slot>, v: View, x: string, index: int, variables: Hash, coerce: Coercion)
    requires WellFormed(v) && v.hasDirectives && v.directivesMode == DynamicMode
    requires v.guards == Some([Guard(Include, DVariable(x, index))])
    ensures |SpecializedProgram(DynamicPass(variables), [slots], [[v]], coerce)[0]|
            == if x in variables && variables[x] !in {Undef, Bool(false), Int(0), Float("0"), Str(""), Str("0")}
               then 1 else 0
  {
    OneOperation(DynamicPass(variables), slots, v, coerce);
    IncludedByVariable(x, index, variables);
  }

  /** The static pass does so for a boolean written in the guard. */
  lemma LiteralDecides(slots: seq<Slot>, v: View, b: bool, coerce: Coercion)
    requires WellFormed(v) && v.hasDirectives && v.directivesMode == StaticMode
    ensures var after := SpecializedProgram(StaticPass, [slots], [[v]], coerce);
            && (v.guards == Some([Guard(Include, DScalar(Bool(b)))]) ==> |after[0]| == if b then 1 else 0)
            && (v.guards == Some([Guard(Skip, DScalar(Bool(b)))]) ==> |after[0]| == if b then 0 else 1)
  {
    OneOperation(StaticPass, slots, v, coerce);
    OneGuard(DScalar(Bool(b)), None, None);
  }

  /** The static pass leaves alone whatever depends on variables. */
  lemma StaticPassLeavesRest(slots: seq<Slot>, v: View, coerce: Coercion)
    requires WellFormed(v) && v.directivesMode != StaticMode && v.argsMode != StaticMode
    ensures SpecializedViews(StaticPass, slots, [v], coerce) == [v]
  {
    OneOperation(StaticPass, slots, v, coerce);
  }

  /** What the pass over the variables leaves of an operation it keeps: its guards are
      gone unless they are static, and where its slot is known and there is something to
      coerce, its arguments no longer depend on variables. */
  lemma VariablePassResolves(slots: seq<Slot>, v: View, variables: Hash, coerce: Coercion)
    requires WellFormed(v) && Keeps(DynamicPass(variables), v)
    ensures var w := SpecializedView(DynamicPass(variables), slots, v, coerce);
            && w.slotIndex == v.slotIndex && w.childBlock == v.childBlock && w.children == v.children
            && (if v.hasDirectives && v.directivesMode == DynamicMode
                then !w.hasDirectives && w.directivesMode == NoneMode && w.guards == None
                else w.hasDirectives == v.hasDirectives && w.directivesMode == v.directivesMode && w.guards == v.guards)
            && (if 0 <= v.slotIndex < |slots| && (|slots[v.slotIndex].argDefs| > 0 || v.hasArgs)
                then && (w.hasArgs <==> w.argsMode == StaticMode) && (w.hasArgs <==> w.args.Some?)
                     && (!w.hasArgs <==> w.argsMode == NoneMode)
                else w.hasArgs == v.hasArgs && w.argsMode == v.argsMode && w.args == v.args)
  {
  }

  /** The static pass does the same to static guards and arguments. */
  lemma StaticPassResolves(slots: seq<Slot>, v: View, coerce: Coercion)
    requires WellFormed(v) && Keeps(StaticPass, v)
    ensures var w := SpecializedView(StaticPass, slots, v, coerce);
            && w.slotIndex == v.slotIndex && w.childBlock == v.childBlock && w.children == v.children
            && (if v.hasDirectives && v.directivesMode == StaticMode
                then !w.hasDirectives && w.directivesMode == NoneMode && w.guards == None
                else w.hasDirectives == v.hasDirectives && w.directivesMode == v.directivesMode && w.guards == v.guards)
            && (if 0 <= v.slotIndex < |slots| && v.argsMode == StaticMode
                && (|slots[v.slotIndex].argDefs| > 0 || v.hasArgs)
                then && (w.hasArgs <==> w.argsMode == StaticMode) && (w.hasArgs <==> w.args.Some?)
                     && (!w.hasArgs <==> w.argsMode == NoneMode)
                else w.hasArgs == v.hasArgs && w.argsMode == v.argsMode && w.args == v.args)
  {
  }

  /** An operation runs when it has no guards, or none that were kept for the run, or
      they let it through. */
  lemma RunsWhen(v: View, hash: Option<Hash>)
    ensures !v.hasDirectives || v.directivesMode == NoneMode || v.guards.None? ==> Visible(v, hash, None)
    ensures v.hasDirectives && v.directivesMode != NoneMode && v.guards.Some? ==>
              (Visible(v, hash, None) <==> GuardsPass(v.guards.value, hash, None))
  {
  }

  /** An operation that runs shows its slot and, below it, what runs in its child block
      and then in its further blocks, in order. */
  lemma RunsBelow(blocks: seq<seq<View>>, b: nat, v: View, hash: Option<Hash>, depth: nat)
    requires b < |blocks| && blocks[b] == [v] && Visible(v, hash, None)
    ensures var t := BlockTree(blocks, b, hash, depth + 1);
            && |t| == 1 && t[0].slotIndex == v.slotIndex && |t[0].children| == 1 + |v.children|
            && t[0].children[0] == BlockTree(blocks, v.childBlock, hash, depth)
            && forall i :: 0 <= i < |v.children| ==>
                 t[0].children[i + 1] == BlockTree(blocks, v.children[i], hash, depth)
  {
    assert blocks[b][..0] == [] && blocks[b][0] == v;
    assert ViewsTree(blocks, [v], hash, depth + 1)
        == [ViewTree(blocks, v.slotIndex, v.childBlock, v.children, hash, depth + 1)];
  }

  /** Operations that run one after the other show so. */
  lemma RunsAfter(blocks: seq<seq<View>>, b: nat, vs: seq<View>, v: View, hash: Option<Hash>, depth: nat)
    requires b < |blocks| && blocks[b] == vs + [v] && depth > 0
    ensures var t := BlockTree(blocks, b, hash, depth);
            if Visible(v, hash, None)
            then |t| > 0 && t[..|t| - 1] == ViewsTree(blocks, vs, hash, depth) && t[|t| - 1].slotIndex == v.slotIndex
            else t == ViewsTree(blocks, vs, hash, depth)
  {
    var n := |vs + [v]| - 1;
    assert (vs + [v])[..n] == vs && (vs + [v])[n] == v;
    if Visible(v, hash, None) {
      var last := ViewTree(blocks, v.slotIndex, v.childBlock, v.children, hash, depth);
      assert BlockTree(blocks, b, hash, depth) == ViewsTree(blocks, vs, hash, depth) + [last];
    }
  }

  // ----- Payload memory -----

  /** The payloads a program owns, by address. Freeing takes an address away, so
      nothing can be freed twice or read after it is freed. */
  class PayloadHeap {
    var guards: map<nat, seq<Guard>>
    var args: map<nat, Payload>
    var next: nat

    ghost predicate Valid()
      reads this
    {
      (forall a :: a in guards ==> a < next) && (forall a :: a in args ==> a < next)
    }

    method NewArgs(payload: Payload) returns (a: nat)
      requires Valid()
      modifies this`args, this`next
      ensures Valid() && a == old(next) && next == a + 1 && a !in old(args)
      ensures args == old(args)[a := payload]
    {
      a := next;
      next := next + 1;
      args := args[a := payload];
    }

    method FreeArgs(a: Option<nat>)
      requires a.Some? ==> a.value in args
      modifies this`args
      ensures args == if a.Some? then old(args) - {a.value} else old(args)
    {
      if a.Some? {
        args := args - {a.value};
      }
    }

    method FreeGuards(a: Option<nat>)
      requires a.Some? ==> a.value in guards
      modifies this`guards
      ensures guards == if a.Some? then old(guards) - {a.value} else old(guards)
    {
      if a.Some? {
        guards := guards - {a.value};
      }
    }
  }

  function Address(a: Option<nat>): set<nat> {
    if a.Some? then {a.value} else {}
  }

  ghost predicate Live(guards: map<nat, seq<Guard>>, args: map<nat, Payload>, op: Op) {
    Address(op.directives) <= guards.Keys && Address(op.args) <= args.Keys
  }

  ghost function ViewOf(guards: map<nat, seq<Guard>>, args: map<nat, Payload>, op: Op): View
    requires Live(guards, args, op)
  {
    View(op.slotIndex, op.childBlock, op.children,
         op.hasDirectives, op.directivesMode, if op.directives.Some? then Some(guards[op.directives.value]) else None,
         op.hasArgs, op.argsMode, if op.args.Some? then Some(args[op.args.value]) else None)
  }

  ghost function Views(guards: map<nat, seq<Guard>>, args: map<nat, Payload>, ops: seq<Op>): seq<View>
    requires forall i :: 0 <= i < |ops| ==> Live(guards, args, ops[i])
  {
    seq(|ops|, i requires 0 <= i < |ops| => ViewOf(guards, args, ops[i]))
  }

  // ----- Owners -----

  /** No address occurs at two places. */
  ghost predicate Distinct(xs: seq<Option<nat>>) {
    forall i, j :: 0 <= i < j < |xs| && xs[i].Some? ==> xs[i] != xs[j]
  }

  ghost function Addresses(xs: seq<Option<nat>>): set<nat> {
    set i | 0 <= i < |xs| && xs[i].Some? :: xs[i].value
  }

  lemma AddressAt(xs: seq<Option<nat>>, i: nat)
    requires i < |xs|
    ensures Address(xs[i]) <= Addresses(xs)
  {
  }

  /** Replacing one place by nothing, by itself or by a new address. */
  lemma ReplaceAddress(xs: seq<Option<nat>>, k: nat, x: Option<nat>)
    requires k < |xs| && Distinct(xs)
    requires x.Some? ==> x == xs[k] || x.value !in Addresses(xs)
    ensures Distinct(xs[k := x])
    ensures Addresses(xs[k := x]) == Addresses(xs) - Address(xs[k]) + Address(x)
  {
    var ys := xs[k := x];
    forall i | 0 <= i < |xs| && i != k && xs[i].Some?
      ensures xs[i].value in Addresses(ys) && xs[i] != x && xs[i] != xs[k]
    {
      assert ys[i] == xs[i];
      assert xs[i].value in Addresses(xs);
    }
    forall a | a in Addresses(ys) ensures a in Addresses(xs) - Address(xs[k]) + Address(x) {
      var i :| 0 <= i < |ys| && ys[i] == Some(a);
      if i != k {
        assert xs[i] == Some(a);
      }
    }
    forall a | a in Address(x) ensures a in Addresses(ys) {
      assert ys[k] == Some(a);
    }
  }

  /** Moving an address to an empty place. */
  lemma MoveAddress(xs: seq<Option<nat>>, to: nat, from: nat)
    requires to < from < |xs| && Distinct(xs) && xs[to].None?
    ensures Distinct(xs[to := xs[from]][from := None])
    ensures Addresses(xs[to := xs[from]][from := None]) == Addresses(xs)
  {
    var ys := xs[to := xs[from]][from := None];
    forall a ensures a in Addresses(ys) <==> a in Addresses(xs) {
      if a in Addresses(xs) {
        var i :| 0 <= i < |xs| && xs[i] == Some(a);
        assert ys[if i == from then to else i] == Some(a);
      }
      if a in Addresses(ys) {
        var i :| 0 <= i < |ys| && ys[i] == Some(a);
        assert xs[if i == to then from else i] == Some(a);
      }
    }
  }

  function Directives(ops: seq<Op>): seq<Option<nat>> {
    seq(|ops|, i requires 0 <= i < |ops| => ops[i].directives)
  }

  function Arguments(ops: seq<Op>): seq<Option<nat>> {
    seq(|ops|, i requires 0 <= i < |ops| => ops[i].args)
  }

  /** A memory holds exactly what is listed and the rest, unchanged. */
  ghost predicate Holds<T>(memory: map<nat, T>, owned: seq<Option<nat>>, rest: map<nat, T>) {
    && Distinct(owned)
    && memory.Keys == rest.Keys + Addresses(owned) && rest.Keys !! Addresses(owned)
    && forall a :: a in rest ==> memory[a] == rest[a]
  }

  /** The operations own their guards and arguments, each its own, and together with
      the rest of the program's they are all there is: none has leaked. */
  ghost predicate Owns(guards: map<nat, seq<Guard>>, args: map<nat, Payload>, ops: seq<Op>,
                       restGuards: map<nat, seq<Guard>>, restArgs: map<nat, Payload>) {
    Holds(guards, Directives(ops), restGuards) && Holds(args, Arguments(ops), restArgs)
  }

  lemma OwnedIsLive(guards: map<nat, seq<Guard>>, args: map<nat, Payload>, ops: seq<Op>,
                    restGuards: map<nat, seq<Guard>>, restArgs: map<nat, Payload>, i: nat)
    requires Owns(guards, args, ops, restGuards, restArgs) && i < |ops|
    ensures Live(guards, args, ops[i])
  {
    AddressAt(Directives(ops), i);
    AddressAt(Arguments(ops), i);
  }

  // ----- One operation -----

  /** What processing one operation does to the heap: its own payloads are freed
      or handed on, new ones are fresh, and no other payload is touched. */
  ghost predicate StepsHeap(guards: map<nat, seq<Guard>>, args: map<nat, Payload>, next: nat,
                            guards': map<nat, seq<Guard>>, args': map<nat, Payload>, op: Op, r: Option<Op>) {
    && guards'.Keys == guards.Keys - Address(op.directives) + (if r.Some? then Address(r.value.directives) else {})
    && args'.Keys == args.Keys - Address(op.args) + (if r.Some? then Address(r.value.args) else {})
    && (r.Some? ==>
          && Address(r.value.directives) <= Address(op.directives)
          && forall a :: a in Address(r.value.args) ==> a in Address(op.args) || a >= next)
    && (forall a :: a in guards' && a in guards ==> guards'[a] == guards[a])
    && (forall a :: a in args' && a in args ==> args'[a] == args[a])
  }

  /** Evaluates an operation's guards and coerces its arguments. The operation is
      dropped (None) when its guards fail; `ok` is false when coercion failed. */
  method ProcessOp(pass: Pass, slots: seq<Slot>, heap: PayloadHeap, op: Op, coerce: Coercion)
    returns (ok: bool, r: Option<Op>)
    requires heap.Valid() && Live(heap.guards, heap.args, op) && WellFormed(ViewOf(heap.guards, heap.args, op))
    modifies heap
    ensures ok <==> old(Accepts(pass, slots, ViewOf(heap.guards, heap.args, op), coerce))
    ensures ok ==> heap.Valid() && old(heap.next) <= heap.next
    ensures ok ==> StepsHeap(old(heap.guards), old(heap.args), old(heap.next), heap.guards, heap.args, op, r)
    ensures ok ==> (r.Some? <==> old(Keeps(pass, ViewOf(heap.guards, heap.args, op))))
    ensures ok && r.Some? ==> Live(heap.guards, heap.args, r.value)
    ensures ok && r.Some? ==>
              ViewOf(heap.guards, heap.args, r.value)
              == old(SpecializedView(pass, slots, ViewOf(heap.guards, heap.args, op), coerce))
  {
    r := None;
    var keep, after := EvaluateOpGuards(pass, heap, op);
    if !keep {
      heap.FreeArgs(op.args);
      return true, None;
    }
    ok, after := SpecializeOpArgs(pass, slots, heap, op, after, coerce);
    r := Some(after);
  }

  /** Replaces an operation's arguments by coerced ones, where the pass coerces them. */
  method SpecializeOpArgs(pass: Pass, slots: seq<Slot>, heap: PayloadHeap, op: Op, before: Op, coerce: Coercion)
    returns (ok: bool, after: Op)
    requires heap.Valid() && Address(op.args) <= heap.args.Keys && before.args == op.args
             && before.slotIndex == op.slotIndex
    requires op.args.Some? ==> UniqueArgs(heap.args[op.args.value])
    requires before.hasArgs == op.hasArgs && before.argsMode == op.argsMode
    modifies heap`args, heap`next
    ensures ok <==> (CoercesArgs(pass, slots, op.slotIndex, op.hasArgs, op.argsMode) ==>
                       old(NoneFails(slots[op.slotIndex].argDefs,
                                     if op.args.Some? then heap.args[op.args.value] else [],
                                     op.argsMode == DynamicMode, Environment(pass), coerce)))
    ensures ok ==> heap.Valid() && old(heap.next) <= heap.next
    ensures ok ==> heap.args.Keys == old(heap.args.Keys) - Address(op.args) + Address(after.args)
    ensures ok ==> forall a :: a in Address(after.args) ==> a in Address(op.args) || a >= old(heap.next)
    ensures ok ==> forall a :: a in heap.args && a in old(heap.args) ==> heap.args[a] == old(heap.args)[a]
    ensures ok ==> after == before.(hasArgs := after.hasArgs, argsMode := after.argsMode, args := after.args)
    ensures ok ==> after.args.Some? ==> after.args.value in heap.args
    ensures ok ==>
              var earlier := old(if op.args.Some? then Some(heap.args[op.args.value]) else None);
              var args := if after.args.Some? then Some(heap.args[after.args.value]) else None;
              if CoercesArgs(pass, slots, op.slotIndex, op.hasArgs, op.argsMode) then
                var defs := slots[op.slotIndex].argDefs;
                var payload := Specialized(defs, |defs|, PayloadOf(earlier), op.argsMode == DynamicMode,
                                           Environment(pass), coerce);
                if payload == [] then !after.hasArgs && after.argsMode == NoneMode && args == None
                else after.hasArgs && after.argsMode == StaticMode && args == Some(payload)
              else after.hasArgs == op.hasArgs && after.argsMode == op.argsMode && args == earlier
  {
    ok, after := true, before;
    if CoercesArgs(pass, slots, op.slotIndex, op.hasArgs, op.argsMode) {
      var args: Option<nat>;
      ok, args := CoerceOpArgs(pass, slots[op.slotIndex].argDefs, heap, op, coerce);
      if !ok {
        return;
      }
      after := if args.Some? then after.(hasArgs := true, argsMode := StaticMode, args := args)
               else after.(hasArgs := false, argsMode := NoneMode, args := None);
    }
  }

  /** Evaluates and frees the guards a pass is responsible for. */
  method EvaluateOpGuards(pass: Pass, heap: PayloadHeap, op: Op) returns (keep: bool, after: Op)
    requires Live(heap.guards, heap.args, op)
    modifies heap`guards
    ensures keep <==> old(Keeps(pass, ViewOf(heap.guards, heap.args, op)))
    ensures after == if Evaluates(pass, op.hasDirectives, op.directivesMode)
                     then op.(hasDirectives := false, directivesMode := NoneMode, directives := None) else op
    ensures heap.guards == if Evaluates(pass, op.hasDirectives, op.directivesMode)
                           then old(heap.guards) - Address(op.directives) else old(heap.guards)
    ensures !keep ==> Evaluates(pass, op.hasDirectives, op.directivesMode)
  {
    keep, after := true, op;
    if Evaluates(pass, op.hasDirectives, op.directivesMode) {
      if op.directives.Some? {
        keep := EvaluateGuards(heap.guards[op.directives.value], Environment(pass), None);
      }
      heap.FreeGuards(op.directives);
      after := op.(hasDirectives := false, directivesMode := NoneMode, directives := None);
    }
  }

  /** Replaces an operation's argument payload by its coerced form, or by none
      when no argument has a value. */
  method CoerceOpArgs(pass: Pass, defs: seq<ArgDef>, heap: PayloadHeap, op: Op, coerce: Coercion)
    returns (ok: bool, args: Option<nat>)
    requires heap.Valid() && Address(op.args) <= heap.args.Keys
    requires UniqueArgs(if op.args.Some? then heap.args[op.args.value] else [])
    modifies heap`args, heap`next
    ensures ok <==> old(NoneFails(defs, if op.args.Some? then heap.args[op.args.value] else [],
                                  op.argsMode == DynamicMode,
                                  Environment(pass), coerce))
    ensures ok ==> heap.Valid() && old(heap.next) <= heap.next
    ensures ok ==> heap.args.Keys == old(heap.args.Keys) - Address(op.args) + Address(args)
    ensures ok ==> forall a :: a in Address(args) ==> a >= old(heap.next)
    ensures ok ==> forall a :: a in heap.args && a in old(heap.args) ==> heap.args[a] == old(heap.args)[a]
    ensures ok ==>
              var payload := Specialized(defs, |defs|, old(if op.args.Some? then heap.args[op.args.value] else []),
                                         op.argsMode == DynamicMode, Environment(pass), coerce);
              (if args.Some? then Some(heap.args[args.value]) else None)
              == if payload == [] then None else Some(payload)
  {
    args := None;
    var payload := if op.args.Some? then heap.args[op.args.value] else [];
    var specialized := SpecializePayload(defs, payload, op.argsMode == DynamicMode, Environment(pass), coerce);
    if specialized.None? {
      return false, None;
    }
    if specialized.value != [] {
      var a := heap.NewArgs(specialized.value);
      args := Some(a);
    }
    heap.FreeArgs(op.args);
    ok := true;
  }

  /** One memory while one owner is replaced. */
  lemma HoldsAfterStep<T>(memory: map<nat, T>, memory': map<nat, T>, owned: seq<Option<nat>>, k: nat, x: Option<nat>,
                          rest: map<nat, T>)
    requires Holds(memory, owned, rest) && k < |owned|
    requires x.Some? ==> x == owned[k] || x.value !in memory
    requires memory'.Keys == memory.Keys - Address(owned[k]) + Address(x)
    requires forall a :: a in memory' && a in memory ==> memory'[a] == memory[a]
    ensures Holds(memory', owned[k := x], rest)
    ensures forall i :: 0 <= i < |owned| && i != k && owned[i].Some? ==>
              && owned[i].value in memory && owned[i].value in memory'
              && memory'[owned[i].value] == memory[owned[i].value]
  {
    ReplaceAddress(owned, k, x);
    AddressAt(owned, k);
    forall i | 0 <= i < |owned| && i != k && owned[i].Some?
      ensures owned[i].value in memory && owned[i].value in memory'
    {
      AddressAt(owned, i);
      assert owned[i] != owned[k];
    }
  }

  /** Replacing one operation by its result keeps ownership. */
  lemma StepKeepsOwnership(guards: map<nat, seq<Guard>>, args: map<nat, Payload>, next: nat,
                           guards': map<nat, seq<Guard>>, args': map<nat, Payload>,
                           ops: seq<Op>, k: nat, r: Option<Op>, dead: Op,
                           restGuards: map<nat, seq<Guard>>, restArgs: map<nat, Payload>)
    requires Owns(guards, args, ops, restGuards, restArgs) && k < |ops|
    requires forall a :: a in args ==> a < next
    requires StepsHeap(guards, args, next, guards', args', ops[k], r)
    requires dead.directives.None? && dead.args.None?
    ensures Owns(guards', args', ops[k := if r.Some? then r.value else dead], restGuards, restArgs)
  {
    var op' := if r.Some? then r.value else dead;
    HoldsAfterStep(guards, guards', Directives(ops), k, op'.directives, restGuards);
    HoldsAfterStep(args, args', Arguments(ops), k, op'.args, restArgs);
    assert Directives(ops[k := op']) == Directives(ops)[k := op'.directives];
    assert Arguments(ops[k := op']) == Arguments(ops)[k := op'.args];
  }

  /** Processing one operation leaves every other operation's contents alone. */
  lemma StepKeepsOther(guards: map<nat, seq<Guard>>, args: map<nat, Payload>, next: nat,
                       guards': map<nat, seq<Guard>>, args': map<nat, Payload>,
                       ops: seq<Op>, k: nat, r: Option<Op>,
                       restGuards: map<nat, seq<Guard>>, restArgs: map<nat, Payload>, i: nat)
    requires Owns(guards, args, ops, restGuards, restArgs) && k < |ops| && i < |ops| && i != k
    requires StepsHeap(guards, args, next, guards', args', ops[k], r)
    ensures Live(guards, args, ops[i]) && Live(guards', args', ops[i])
            && ViewOf(guards', args', ops[i]) == ViewOf(guards, args, ops[i])
  {
    AddressAt(Directives(ops), i);
    AddressAt(Arguments(ops), i);
    assert Distinct(Directives(ops)) && Distinct(Arguments(ops));
    assert Directives(ops)[k] == ops[k].directives && Arguments(ops)[k] == ops[k].args;
  }

  lemma MoveKeepsOwnership(guards: map<nat, seq<Guard>>, args: map<nat, Payload>, ops: seq<Op>, to: nat, from: nat,
                           restGuards: map<nat, seq<Guard>>, restArgs: map<nat, Payload>)
    requires Owns(guards, args, ops, restGuards, restArgs)
    requires to < from < |ops| && ops[to].directives.None? && ops[to].args.None?
    ensures Owns(guards, args, ops[to := ops[from]][from := ZERO_OP], restGuards, restArgs)
  {
    var moved := ops[to := ops[from]][from := ZERO_OP];
    MoveAddress(Directives(ops), to, from);
    MoveAddress(Arguments(ops), to, from);
    assert Directives(moved) == Directives(ops)[to := ops[from].directives][from := None];
    assert Arguments(moved) == Arguments(ops)[to := ops[from].args][from := None];
  }

  // ----- Compaction -----

  predicate Dead(op: Op) {
    op.directives.None? && op.args.None?
  }

  class Block {
    const slots: seq<Slot>
    const ops: array<Op>
    var opCount: nat

    constructor (slots: seq<Slot>, ops: array<Op>)
      ensures this.slots == slots && this.ops == ops && opCount == ops.Length
    {
      this.slots, this.ops := slots, ops;
      opCount := ops.Length;
    }

    /** The operations in use own all their payloads; cells past the count own none. */
    ghost predicate Valid(heap: PayloadHeap, restGuards: map<nat, seq<Guard>>, restArgs: map<nat, Payload>)
      reads this, ops, heap
    {
      && opCount <= ops.Length && heap.Valid()
      && Owns(heap.guards, heap.args, ops[..], restGuards, restArgs)
      && forall i :: opCount <= i < ops.Length ==> Dead(ops[i])
    }

    ghost function Contents(heap: PayloadHeap, restGuards: map<nat, seq<Guard>>,
                            restArgs: map<nat, Payload>): (vs: seq<View>)
      requires Valid(heap, restGuards, restArgs)
      reads this, ops, heap
      ensures |vs| == opCount
    {
      AllLive(heap, restGuards, restArgs);
      Views(heap.guards, heap.args, ops[..opCount])
    }

    lemma AllLive(heap: PayloadHeap, restGuards: map<nat, seq<Guard>>, restArgs: map<nat, Payload>)
      requires Owns(heap.guards, heap.args, ops[..], restGuards, restArgs)
      ensures forall i :: 0 <= i < ops.Length ==> Live(heap.guards, heap.args, ops[i])
    {
      forall i | 0 <= i < ops.Length ensures Live(heap.guards, heap.args, ops[i]) {
        OwnedIsLive(heap.guards, heap.args, ops[..], restGuards, restArgs, i);
      }
    }

    /** Processes one operation in its cell; a dropped one leaves a dead cell. */
    method ProcessCell(pass: Pass, heap: PayloadHeap, k: nat, coerce: Coercion,
                       ghost restGuards: map<nat, seq<Guard>>, ghost restArgs: map<nat, Payload>)
      returns (ok: bool, kept: bool)
      requires k < ops.Length && heap.Valid() && Owns(heap.guards, heap.args, ops[..], restGuards, restArgs)
      requires Live(heap.guards, heap.args, ops[k]) && WellFormed(ViewOf(heap.guards, heap.args, ops[k]))
      modifies heap, ops
      ensures ok <==> old(Accepts(pass, slots, ViewOf(heap.guards, heap.args, ops[k]), coerce))
      ensures ok ==> heap.Valid() && Owns(heap.guards, heap.args, ops[..], restGuards, restArgs)
      ensures ok ==> forall i :: 0 <= i < ops.Length && i != k ==>
                && ops[i] == old(ops[i]) && old(Live(heap.guards, heap.args, ops[i]))
                && Live(heap.guards, heap.args, ops[i])
                && ViewOf(heap.guards, heap.args, ops[i]) == old(ViewOf(heap.guards, heap.args, ops[i]))
      ensures ok ==> (kept <==> old(Keeps(pass, ViewOf(heap.guards, heap.args, ops[k]))))
      ensures ok && !kept ==> Dead(ops[k])
      ensures ok && kept ==>
                && Live(heap.guards, heap.args, ops[k])
                && ViewOf(heap.guards, heap.args, ops[k])
                   == old(SpecializedView(pass, slots, ViewOf(heap.guards, heap.args, ops[k]), coerce))
    {
      var op := ops[k];
      ghost var before, guards, args, next := ops[..], heap.guards, heap.args, heap.next;
      var r: Option<Op>;
      ok, r := ProcessOp(pass, slots, heap, op, coerce);
      kept := r.Some?;
      if !ok {
        return;
      }
      var dead := if pass.StaticPass? then op.(directives := None, args := None) else ZERO_OP;
      StepKeepsOwnership(guards, args, next, heap.guards, heap.args, before, k, r, dead, restGuards, restArgs);
      forall i | 0 <= i < |before| && i != k
        ensures Live(guards, args, before[i]) && Live(heap.guards, heap.args, before[i])
        ensures ViewOf(heap.guards, heap.args, before[i]) == ViewOf(guards, args, before[i])
      {
        StepKeepsOther(guards, args, next, heap.guards, heap.args, before, k, r, restGuards, restArgs, i);
      }
      ops[k] := if r.Some? then r.value else dead;
      assert ops[..] == before[k := ops[k]];
    }

    /** Moves an operation down to a dead cell and clears where it was. */
    method MoveDown(heap: PayloadHeap, to: nat, from: nat,
                    ghost restGuards: map<nat, seq<Guard>>, ghost restArgs: map<nat, Payload>)
      requires to < from < ops.Length && Dead(ops[to])
      requires Owns(heap.guards, heap.args, ops[..], restGuards, restArgs)
      modifies ops
      ensures Owns(heap.guards, heap.args, ops[..], restGuards, restArgs)
      ensures ops[..] == old(ops[..])[to := old(ops[from])][from := ZERO_OP]
    {
      MoveKeepsOwnership(heap.guards, heap.args, ops[..], to, from, restGuards, restArgs);
      ghost var before := ops[..];
      ops[to] := ops[from];
      ops[from] := ZERO_OP;
      assert ops[..] == before[to := before[from]][from := ZERO_OP];
    }

    /** Runs a pass over the block: processes every operation in order, keeps the
        surviving ones at the front and drops the others. */
    method Compact(pass: Pass, heap: PayloadHeap, coerce: Coercion,
                   ghost restGuards: map<nat, seq<Guard>>, ghost restArgs: map<nat, Payload>) returns (ok: bool)
      requires Valid(heap, restGuards, restArgs)
      requires forall i :: 0 <= i < opCount ==> WellFormed(Contents(heap, restGuards, restArgs)[i])
      modifies this`opCount, ops, heap
      ensures ok <==> old(AllAccepted(pass, slots, Contents(heap, restGuards, restArgs), coerce))
      ensures ok ==> Valid(heap, restGuards, restArgs)
      ensures ok ==> Contents(heap, restGuards, restArgs)
                     == SpecializedViews(pass, slots, old(Contents(heap, restGuards, restArgs)), coerce)
    {
      ghost var vs := Contents(heap, restGuards, restArgs);
      NothingProcessed(pass, heap, coerce, vs, restGuards, restArgs);
      var read, write := 0, 0;
      while read < opCount
        invariant read <= opCount == |vs| && Progress(pass, heap, coerce, vs, read, write, restGuards, restArgs)
        invariant forall i :: 0 <= i < read ==> Accepts(pass, slots, vs[i], coerce)
      {
        ok, write := Step(pass, heap, coerce, vs, read, write, restGuards, restArgs);
        if !ok {
          assert !AllAccepted(pass, slots, vs, coerce);
          return;
        }
        read := read + 1;
      }
      assert AllAccepted(pass, slots, vs, coerce);
      Shorten(pass, heap, coerce, vs, write, restGuards, restArgs);
      ok := true;
    }

    lemma NothingProcessed(pass: Pass, heap: PayloadHeap, coerce: Coercion, vs: seq<View>,
                           restGuards: map<nat, seq<Guard>>, restArgs: map<nat, Payload>)
      requires Valid(heap, restGuards, restArgs) && vs == Contents(heap, restGuards, restArgs)
      requires forall i :: 0 <= i < |vs| ==> WellFormed(vs[i])
      ensures Progress(pass, heap, coerce, vs, 0, 0, restGuards, restArgs)
    {
      AllLive(heap, restGuards, restArgs);
    }

    /** Sets the count to what was written. */
    method Shorten(pass: Pass, heap: PayloadHeap, coerce: Coercion, ghost vs: seq<View>, write: nat,
                   ghost restGuards: map<nat, seq<Guard>>, ghost restArgs: map<nat, Payload>)
      requires forall i :: 0 <= i < |vs| ==> WellFormed(vs[i])
      requires Progress(pass, heap, coerce, vs, opCount, write, restGuards, restArgs)
      modifies this`opCount
      ensures Valid(heap, restGuards, restArgs)
      ensures Contents(heap, restGuards, restArgs) == SpecializedViews(pass, slots, vs, coerce)
    {
      assert vs[..opCount] == vs;
      opCount := write;
    }

    /** Compaction in progress: `read` operations have been processed, the kept ones
        stand in the first `write` cells, and the cells in between are dead. */
    ghost predicate Progress(pass: Pass, heap: PayloadHeap, coerce: Coercion, vs: seq<View>, read: nat, write: nat,
                             restGuards: map<nat, seq<Guard>>, restArgs: map<nat, Payload>)
      requires forall i :: 0 <= i < |vs| ==> WellFormed(vs[i])
      reads this, ops, heap
    {
      && write <= read <= opCount == |vs| <= ops.Length
      && heap.Valid() && Owns(heap.guards, heap.args, ops[..], restGuards, restArgs)
      && (forall i :: 0 <= i < ops.Length ==> Live(heap.guards, heap.args, ops[i]))
      && (forall i :: read <= i < opCount ==> ViewOf(heap.guards, heap.args, ops[i]) == vs[i])
      && (forall i :: write <= i < read || opCount <= i < ops.Length ==> Dead(ops[i]))
      && Views(heap.guards, heap.args, ops[..write]) == SpecializedViews(pass, slots, vs[..read], coerce)
    }

    /** Puts the operation at `from` where the write end is; the cell it leaves is dead. */
    method Place(heap: PayloadHeap, to: nat, from: nat,
                 ghost restGuards: map<nat, seq<Guard>>, ghost restArgs: map<nat, Payload>)
      requires to <= from < ops.Length && (to < from ==> Dead(ops[to]))
      requires Owns(heap.guards, heap.args, ops[..], restGuards, restArgs)
      modifies ops
      ensures Owns(heap.guards, heap.args, ops[..], restGuards, restArgs)
      ensures ops[to] == old(ops[from]) && (to < from ==> Dead(ops[from]))
      ensures forall i :: 0 <= i < ops.Length && i != to && i != from ==> ops[i] == old(ops[i])
    {
      if to != from {
        MoveDown(heap, to, from, restGuards, restArgs);
        assert ops[..][to] == ops[to] && ops[..][from] == ops[from];
      }
    }

    lemma ViewsGrow(guards: map<nat, seq<Guard>>, args: map<nat, Payload>, guards': map<nat, seq<Guard>>,
                    args': map<nat, Payload>, before: seq<Op>, after: seq<Op>)
      requires |before| <= |after| <= |before| + 1
      requires forall i :: 0 <= i < |after| ==> Live(guards', args', after[i])
      requires forall i :: 0 <= i < |before| ==> after[i] == before[i] && Live(guards, args, before[i])
                                                 && ViewOf(guards', args', before[i]) == ViewOf(guards, args, before[i])
      ensures Views(guards', args', after)
              == if |after| == |before| then Views(guards, args, before)
                 else Views(guards, args, before) + [ViewOf(guards', args', after[|before|])]
    {
    }

    /** The written part after an operation: as it was, and the operation if it is kept. */
    lemma WrittenAfter(pass: Pass, coerce: Coercion, vs: seq<View>, read: nat, guards: map<nat, seq<Guard>>,
                       args: map<nat, Payload>, guards': map<nat, seq<Guard>>, args': map<nat, Payload>,
                       before: seq<Op>, after: seq<Op>)
      requires read < |vs| && forall i :: 0 <= i < |vs| ==> WellFormed(vs[i])
      requires |after| == if Keeps(pass, vs[read]) then |before| + 1 else |before|
      requires forall i :: 0 <= i < |after| ==> Live(guards', args', after[i])
      requires forall i :: 0 <= i < |before| ==> after[i] == before[i] && Live(guards, args, before[i])
                                                 && ViewOf(guards', args', before[i]) == ViewOf(guards, args, before[i])
      requires Views(guards, args, before) == SpecializedViews(pass, slots, vs[..read], coerce)
      requires Keeps(pass, vs[read]) ==>
                 ViewOf(guards', args', after[|before|]) == SpecializedView(pass, slots, vs[read], coerce)
      ensures Views(guards', args', after) == SpecializedViews(pass, slots, vs[..read + 1], coerce)
    {
      ViewsGrow(guards, args, guards', args', before, after);
      SpecializedAppend(pass, slots, vs[..read], vs[read], coerce);
      assert vs[..read + 1] == vs[..read] + [vs[read]];
    }

    /** Processes the next operation and, if it is kept, moves it to the write end. */
    method Step(pass: Pass, heap: PayloadHeap, coerce: Coercion, ghost vs: seq<View>, read: nat, write: nat,
                ghost restGuards: map<nat, seq<Guard>>, ghost restArgs: map<nat, Payload>)
      returns (ok: bool, write': nat)
      requires forall i :: 0 <= i < |vs| ==> WellFormed(vs[i])
      requires read < opCount && Progress(pass, heap, coerce, vs, read, write, restGuards, restArgs)
      modifies ops, heap
      ensures ok <==> Accepts(pass, slots, vs[read], coerce)
      ensures ok ==> Progress(pass, heap, coerce, vs, read + 1, write', restGuards, restArgs)
    {
      ghost var written, guards, args := ops[..write], heap.guards, heap.args;
      var kept: bool;
      write' := write;
      ok, kept := ProcessCell(pass, heap, read, coerce, restGuards, restArgs);
      assert ok <==> Accepts(pass, slots, vs[read], coerce);
      if !ok {
        return;
      }
      if kept {
        Place(heap, write, read, restGuards, restArgs);
        write' := write + 1;
      }
      AllLive(heap, restGuards, restArgs);
      WrittenAfter(pass, coerce, vs, read, guards, args, heap.guards, heap.args, written, ops[..write']);
    }
  }

  // ----- The whole program -----

  /** A memory split between owners: each holds its own addresses, no two share
      one, and nothing is left over. */
  ghost predicate Split<T>(memory: map<nat, T>, owners: seq<seq<Option<nat>>>) {
    && (forall b :: 0 <= b < |owners| ==> Distinct(owners[b]) && Addresses(owners[b]) <= memory.Keys)
    && (forall b, c :: 0 <= b < |owners| && 0 <= c < |owners| && b != c ==>
          Addresses(owners[b]) !! Addresses(owners[c]))
    && (forall a :: a in memory ==> exists b :: 0 <= b < |owners| && a in Addresses(owners[b]))
  }

  ghost function Others<T>(memory: map<nat, T>, owned: seq<Option<nat>>): map<nat, T> {
    memory - Addresses(owned)
  }

  lemma OthersHold<T>(memory: map<nat, T>, owned: seq<Option<nat>>)
    requires Distinct(owned) && Addresses(owned) <= memory.Keys
    ensures Holds(memory, owned, Others(memory, owned))
  {
  }

  lemma SplitHolds<T>(memory: map<nat, T>, owners: seq<seq<Option<nat>>>, b: nat)
    requires Split(memory, owners) && b < |owners|
    ensures Holds(memory, owners[b], Others(memory, owners[b]))
    ensures forall c :: 0 <= c < |owners| && c != b ==> Addresses(owners[c]) <= Others(memory, owners[b]).Keys
  {
    OthersHold(memory, owners[b]);
    forall c | 0 <= c < |owners| && c != b ensures Addresses(owners[c]) <= Others(memory, owners[b]).Keys {
      assert Addresses(owners[c]) !! Addresses(owners[b]);
    }
  }

  lemma OthersAreKept<T>(memory: map<nat, T>, owners: seq<seq<Option<nat>>>, b: nat, memory': map<nat, T>,
                         owned: seq<Option<nat>>)
    requires Split(memory, owners) && b < |owners|
    requires Holds(memory', owned, Others(memory, owners[b]))
    ensures forall c :: 0 <= c < |owners| && c != b ==>
              && Addresses(owners[c]) <= memory'.Keys && Addresses(owners[c]) !! Addresses(owned)
              && forall a :: a in Addresses(owners[c]) ==> a in memory && memory'[a] == memory[a]
  {
    SplitHolds(memory, owners, b);
  }

  lemma HoldsSplits<T>(memory: map<nat, T>, owners: seq<seq<Option<nat>>>, b: nat, memory': map<nat, T>,
                       owned: seq<Option<nat>>)
    requires Split(memory, owners) && b < |owners|
    requires Holds(memory', owned, Others(memory, owners[b]))
    ensures Split(memory', owners[b := owned])
  {
    OthersAreKept(memory, owners, b, memory', owned);
    var owners' := owners[b := owned];
    forall c, d | 0 <= c < |owners'| && 0 <= d < |owners'| && c != d
      ensures Addresses(owners'[c]) !! Addresses(owners'[d])
    {
      if c != b && d != b {
        assert Addresses(owners[c]) !! Addresses(owners[d]);
      }
    }
    forall a | a in memory' ensures exists c :: 0 <= c < |owners'| && a in Addresses(owners'[c]) {
      var c := OwnerOf(memory, owners, b, memory', owned, a);
      assert a in Addresses(owners'[c]);
    }
  }

  lemma OwnerOf<T>(memory: map<nat, T>, owners: seq<seq<Option<nat>>>, b: nat, memory': map<nat, T>,
                   owned: seq<Option<nat>>, a: nat)
    returns (c: nat)
    requires Split(memory, owners) && b < |owners|
    requires Holds(memory', owned, Others(memory, owners[b])) && a in memory'
    ensures c < |owners| && a in Addresses(owners[b := owned][c])
  {
    if a in Addresses(owned) {
      c := b;
    } else {
      c :| 0 <= c < |owners| && a in Addresses(owners[c]);
    }
  }

  ghost function AllDirectives(blocks: seq<Block>): seq<seq<Option<nat>>>
    reads set b | b in blocks :: b.ops
  {
    seq(|blocks|, b requires 0 <= b < |blocks| reads set c | c in blocks :: c.ops => Directives(blocks[b].ops[..]))
  }

  ghost function AllArguments(blocks: seq<Block>): seq<seq<Option<nat>>>
    reads set b | b in blocks :: b.ops
  {
    seq(|blocks|, b requires 0 <= b < |blocks| reads set c | c in blocks :: c.ops => Arguments(blocks[b].ops[..]))
  }

  /** A program: blocks over separate arrays whose operations own, between them,
      every payload in memory. */
  ghost predicate ProgramValid(heap: PayloadHeap, blocks: seq<Block>)
    reads heap, blocks, set b | b in blocks :: b.ops
  {
    && heap.Valid()
    && (forall b, c :: 0 <= b < c < |blocks| ==> blocks[b] != blocks[c] && blocks[b].ops != blocks[c].ops)
    && Split(heap.guards, AllDirectives(blocks)) && Split(heap.args, AllArguments(blocks))
    && forall b :: 0 <= b < |blocks| ==>
         && blocks[b].opCount <= blocks[b].ops.Length
         && forall i :: blocks[b].opCount <= i < blocks[b].ops.Length ==> Dead(blocks[b].ops[i])
  }

  lemma BlockIsLive(heap: PayloadHeap, blocks: seq<Block>, b: nat)
    requires ProgramValid(heap, blocks) && b < |blocks|
    ensures forall i :: 0 <= i < blocks[b].ops.Length ==> Live(heap.guards, heap.args, blocks[b].ops[i])
    ensures blocks[b].Valid(heap, Others(heap.guards, AllDirectives(blocks)[b]),
                            Others(heap.args, AllArguments(blocks)[b]))
  {
    SplitHolds(heap.guards, AllDirectives(blocks), b);
    SplitHolds(heap.args, AllArguments(blocks), b);
    blocks[b].AllLive(heap, Others(heap.guards, AllDirectives(blocks)[b]), Others(heap.args, AllArguments(blocks)[b]));
  }

  ghost function BlockViews(heap: PayloadHeap, blocks: seq<Block>, b: nat): (vs: seq<View>)
    requires ProgramValid(heap, blocks) && b < |blocks|
    reads heap, blocks, set b | b in blocks :: b.ops
    ensures |vs| == blocks[b].opCount
  {
    BlockIsLive(heap, blocks, b);
    Views(heap.guards, heap.args, blocks[b].ops[..blocks[b].opCount])
  }

  /** The program by value. */
  ghost function ProgramViews(heap: PayloadHeap, blocks: seq<Block>): seq<seq<View>>
    requires ProgramValid(heap, blocks)
    reads heap, blocks, set b | b in blocks :: b.ops
  {
    seq(|blocks|, b requires 0 <= b < |blocks| && ProgramValid(heap, blocks)
                    reads heap, blocks, set c | c in blocks :: c.ops => BlockViews(heap, blocks, b))
  }

  ghost function ProgramSlots(blocks: seq<Block>): seq<seq<Slot>> {
    seq(|blocks|, b requires 0 <= b < |blocks| => blocks[b].slots)
  }

  /** Runs a pass over one block of a program. */
  method CompactBlock(pass: Pass, heap: PayloadHeap, blocks: seq<Block>, b: nat, coerce: Coercion) returns (ok: bool)
    requires ProgramValid(heap, blocks) && b < |blocks|
    requires forall i :: 0 <= i < blocks[b].opCount ==> WellFormed(BlockViews(heap, blocks, b)[i])
    modifies heap, blocks[b], blocks[b].ops
    ensures ok <==> old(AllAccepted(pass, blocks[b].slots, BlockViews(heap, blocks, b), coerce))
    ensures ok ==> ProgramValid(heap, blocks)
    ensures ok ==> BlockViews(heap, blocks, b)
                   == SpecializedViews(pass, blocks[b].slots, old(BlockViews(heap, blocks, b)), coerce)
    ensures ok ==> forall c :: 0 <= c < |blocks| && c != b ==>
              BlockViews(heap, blocks, c) == old(BlockViews(heap, blocks, c))
  {
    ghost var guards, args := heap.guards, heap.args;
    ghost var directives, arguments := AllDirectives(blocks), AllArguments(blocks);
    BlockIsLive(heap, blocks, b);
    assert blocks[b].Contents(heap, Others(guards, directives[b]), Others(args, arguments[b]))
           == BlockViews(heap, blocks, b);
    ok := blocks[b].Compact(pass, heap, coerce, Others(guards, directives[b]), Others(args, arguments[b]));
    if ok {
      assert AllDirectives(blocks) == directives[b := Directives(blocks[b].ops[..])];
      assert AllArguments(blocks) == arguments[b := Arguments(blocks[b].ops[..])];
      HoldsSplits(guards, directives, b, heap.guards, Directives(blocks[b].ops[..]));
      HoldsSplits(args, arguments, b, heap.args, Arguments(blocks[b].ops[..]));
      OthersAreKept(guards, directives, b, heap.guards, Directives(blocks[b].ops[..]));
      OthersAreKept(args, arguments, b, heap.args, Arguments(blocks[b].ops[..]));
      assert ProgramValid(heap, blocks);
      forall c | 0 <= c < |blocks| && c != b ensures BlockViews(heap, blocks, c) == old(BlockViews(heap, blocks, c)) {
        OtherViewsKept(guards, args, heap.guards, heap.args, directives[c], arguments[c],
                       blocks[c].ops[..blocks[c].opCount]);
      }
    }
  }

  lemma OtherViewsKept(guards: map<nat, seq<Guard>>, args: map<nat, Payload>, guards': map<nat, seq<Guard>>,
                       args': map<nat, Payload>, directives: seq<Option<nat>>, arguments: seq<Option<nat>>,
                       ops: seq<Op>)
    requires |ops| <= |directives| && |ops| <= |arguments|
    requires forall i :: 0 <= i < |ops| ==> directives[i] == ops[i].directives && arguments[i] == ops[i].args
    requires forall a :: a in Addresses(directives) ==> a in guards && a in guards' && guards'[a] == guards[a]
    requires forall a :: a in Addresses(arguments) ==> a in args && a in args' && args'[a] == args[a]
    ensures forall i :: 0 <= i < |ops| ==> Live(guards, args, ops[i]) && Live(guards', args', ops[i])
    ensures Views(guards', args', ops) == Views(guards, args, ops)
  {
    forall i | 0 <= i < |ops|
      ensures Live(guards, args, ops[i]) && Live(guards', args', ops[i])
      ensures ViewOf(guards', args', ops[i]) == ViewOf(guards, args, ops[i])
    {
      AddressAt(directives, i);
      AddressAt(arguments, i);
    }
  }

  /** Runs a pass over every block. It fails exactly when a kept operation has a
      rejected argument; else what the program shows is unchanged, and its operations
      still own exactly the payloads in memory. */
  method SpecializeProgram(pass: Pass, heap: PayloadHeap, blocks: seq<Block>, coerce: Coercion) returns (ok: bool)
    requires ProgramValid(heap, blocks) && ProgramOk(pass, ProgramViews(heap, blocks))
    modifies heap, blocks, set b | b in blocks :: b.ops
    ensures ok <==> forall b :: 0 <= b < |blocks| ==>
              AllAccepted(pass, blocks[b].slots, old(ProgramViews(heap, blocks))[b], coerce)
    ensures ok ==> ProgramValid(heap, blocks)
    ensures ok ==> ProgramViews(heap, blocks)
                   == SpecializedProgram(pass, ProgramSlots(blocks), old(ProgramViews(heap, blocks)), coerce)
    ensures ok ==> forall hash, b, depth :: (pass.DynamicPass? ==> hash == Some(pass.variables)) ==>
              BlockTree(ProgramViews(heap, blocks), b, hash, depth)
              == BlockTree(old(ProgramViews(heap, blocks)), b, hash, depth)
  {
    ghost var before := ProgramViews(heap, blocks);
    for b := 0 to |blocks|
      invariant ProgramValid(heap, blocks)
      invariant forall c :: 0 <= c < b ==> AllAccepted(pass, blocks[c].slots, before[c], coerce)
      invariant forall c :: 0 <= c < b ==>
                  BlockViews(heap, blocks, c) == SpecializedViews(pass, blocks[c].slots, before[c], coerce)
      invariant forall c :: b <= c < |blocks| ==> BlockViews(heap, blocks, c) == before[c]
    {
      ok := CompactBlock(pass, heap, blocks, b, coerce);
      if !ok {
        return;
      }
    }
    ok := true;
    assert ProgramViews(heap, blocks) == SpecializedProgram(pass, ProgramSlots(blocks), before, coerce);
    forall hash, b, depth | pass.DynamicPass? ==> hash == Some(pass.variables)
      ensures BlockTree(ProgramViews(heap, blocks), b, hash, depth) == BlockTree(before, b, hash, depth)
    {
      PassKeepsTree(pass, ProgramSlots(blocks), before, coerce, hash, b, depth);
    }
  }
}
