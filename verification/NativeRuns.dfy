/**
 Runs of native-value operations: whatever the sequence of steps, an owner's
 handles mean what they would mean if values were plain immutable trees.
 */
module NativeRuns {
  import opened Values
  import opened NativeValues

  /** One operation on numbered handles. A handle whose value was moved into another
      value or destroyed is empty. */
  datatype Step =
    | AddScalar(s: Scalar)
    | AddObject
    | AddList
    | Store(target: nat, name: string, child: nat)
    | Push(target: nat, child: nat)
    | StoreItem(target: nat, index: int, child: nat)
    | Copy(source: nat)
    | Drop(source: nat)

  type Trees = seq<Option<Tree>>

  /** A step names existing handles, and does not put a value into itself. */
  predicate Possible(step: Step, handles: nat) {
    match step
    case Store(t, _, c) => t < handles && c < handles && t != c
    case Push(t, c) => t < handles && c < handles && t != c
    case StoreItem(t, _, c) => t < handles && c < handles && t != c
    case Copy(h) => h < handles
    case Drop(h) => h < handles
    case _ => true
  }

  /** What a step does to trees. */
  function Apply(trees: Trees, step: Step): Trees
    requires Possible(step, |trees|)
  {
    match step
    case AddScalar(s) => trees + [Some(Leaf(Plain(s)))]
    case AddObject => trees + [Some(ObjectTree([], []))]
    case AddList => trees + [Some(ListTree([]))]
    case Store(t, name, c) =>
      if trees[t].Some? && trees[t].value.ObjectTree? && trees[c].Some? then
        trees[t := Some(ObjectTree(trees[t].value.names + [name],
                                   trees[t].value.children + [trees[c].value]))][c := None]
      else trees
    case Push(t, c) =>
      if trees[t].Some? && trees[t].value.ListTree? && trees[c].Some? then
        trees[t := Some(ListTree(trees[t].value.items + [trees[c].value]))][c := None]
      else trees
    case StoreItem(t, i, c) =>
      if trees[t].Some? && trees[t].value.ListTree? && i >= 0 && trees[c].Some? then
        trees[t := Some(ListTree(ItemsWith(trees[t].value.items, i, trees[c].value)))][c := None]
      else trees
    case Copy(h) => trees + [Some(if trees[h].Some? then trees[h].value else Leaf(NoScalar))]
    case Drop(h) => trees[h := None]
  }

  /** Items with `t` at `index`, null filling any gap. */
  function ItemsWith(items: seq<Tree>, index: nat, t: Tree): seq<Tree> {
    if index < |items| then items[index := t]
    else items + seq(index - |items|, i => Leaf(NoScalar)) + [t]
  }

  // ----- Outcomes -----

  /** An outcome: how many references there are to it, and its value, if it still has one. */
  datatype Shared = Shared(count: nat, tree: Option<Tree>)

  /** The handles, and the outcomes that have not been given up. */
  datatype State = State(handles: Trees, outcomes: seq<Option<Shared>>)

  /** What an owner does: an operation on handles, or one on outcomes. Wrapping moves
      a handle's value into a new outcome. */
  datatype Action =
    | On(step: Step)
    | Wrap(source: nat)
    | Share(outcome: nat)
    | Consume(target: nat, name: string, outcome: nat)
    | Release(outcome: nat)

  /** An action names existing handles and outcomes it has a reference to. */
  predicate Allowed(action: Action, s: State) {
    match action
    case On(step) => Possible(step, |s.handles|)
    case Wrap(h) => h < |s.handles|
    case Share(o) => o < |s.outcomes| && s.outcomes[o].Some?
    case Consume(t, _, o) => t < |s.handles| && o < |s.outcomes| && s.outcomes[o].Some?
    case Release(o) => o < |s.outcomes| && s.outcomes[o].Some?
  }

  function OrNull(t: Option<Tree>): Tree {
    if t.Some? then t.value else Leaf(NoScalar)
  }

  /** What an action does to trees. Consuming puts the outcome's tree into the target
      whatever the count; a sole reference gives its tree away. */
  function Act(s: State, action: Action): State
    requires Allowed(action, s)
  {
    match action
    case On(step) => s.(handles := Apply(s.handles, step))
    case Wrap(h) => State(s.handles[h := None], s.outcomes + [Some(Shared(1, Some(OrNull(s.handles[h]))))])
    case Share(o) => s.(outcomes := s.outcomes[o := Some(s.outcomes[o].value.(count := s.outcomes[o].value.count + 1))])
    case Consume(t, name, o) =>
      var shared, tree := s.outcomes[o].value, s.handles[t];
      if tree.Some? && tree.value.ObjectTree? then
        State(s.handles[t := Some(Stored(tree.value, name, OrNull(shared.tree)))],
              s.outcomes[o := Some(if shared.count == 1 then shared.(tree := None) else shared)])
      else s
    case Release(o) =>
      var shared := s.outcomes[o].value;
      s.(outcomes := s.outcomes[o := if shared.count > 1 then Some(shared.(count := shared.count - 1)) else None])
  }

  predicate AllAllowed(actions: seq<Action>, s: State)
    decreases |actions|
  {
    actions == [] || (Allowed(actions[0], s) && AllAllowed(actions[1..], Act(s, actions[0])))
  }

  function ActAll(s: State, actions: seq<Action>): State
    requires AllAllowed(actions, s)
    decreases |actions|
  {
    if actions == [] then s else ActAll(Act(s, actions[0]), actions[1..])
  }

  /** Whether a consumed outcome is moved or copied cannot be seen in the handles, and
      with another reference about, consuming and giving up one's own leaves the other
      the whole value. */
  lemma ConsumingIgnoresSharing(s: State, t: nat, name: string, o: nat)
    requires Allowed(Consume(t, name, o), s) && s.outcomes[o].value.count > 0
    ensures var shared := Act(s, Share(o));
            && Act(shared, Consume(t, name, o)).handles == Act(s, Consume(t, name, o)).handles
            && Act(Act(shared, Consume(t, name, o)), Release(o)).outcomes == s.outcomes
  {
    var shared := Act(s, Share(o));
    var x := s.outcomes[o].value;
    assert shared.outcomes[o] == Some(x.(count := x.count + 1));
    assert Act(shared, Consume(t, name, o)).outcomes[o] == Some(x.(count := x.count + 1));
  }

  /** Each step on handles that can take it: a new leaf, object or list gets the next
      handle; storing, pushing and replacing move the child; a copy leaves its source. */
  lemma StepsOnTrees(x: Tree, y: Tree, names: seq<string>, children: seq<Tree>, items: seq<Tree>, s: Scalar,
                     name: string)
    ensures Apply([], AddObject) == [Some(ObjectTree([], []))] && Apply([], AddList) == [Some(ListTree([]))]
    ensures s != Text("", true) ==> Apply([], AddScalar(s)) == [Some(Leaf(s))]
    ensures Apply([Some(ObjectTree(names, children)), Some(x)], Store(0, name, 1))
            == [Some(ObjectTree(names + [name], children + [x])), None]
    ensures Apply([Some(ListTree(items)), Some(x)], Push(0, 1)) == [Some(ListTree(items + [x])), None]
    ensures Apply([Some(ListTree([y])), Some(x)], StoreItem(0, 0, 1)) == [Some(ListTree([x])), None]
    ensures Apply([Some(ListTree([y])), Some(x)], StoreItem(0, 2, 1))
            == [Some(ListTree([y, Leaf(NoScalar), x])), None]
    ensures Apply([Some(x)], Copy(0)) == [Some(x), Some(x)] && Apply([Some(x)], Drop(0)) == [None]
  {
    assert [y] + [Leaf(NoScalar)] + [x] == [y, Leaf(NoScalar), x];
    assert ItemsWith([y], 2, x) == [y, Leaf(NoScalar), x];
    assert ItemsWith([y], 0, x) == [x];
  }

  /** Steps that do not fit, such as pushing into an object, storing at a negative index
      or moving what is gone, change nothing. */
  lemma StepsThatDoNotFit(x: Tree, y: Tree, name: string, i: int)
    ensures !x.ObjectTree? ==> Apply([Some(x), Some(y)], Store(0, name, 1)) == [Some(x), Some(y)]
    ensures !x.ListTree? ==> Apply([Some(x), Some(y)], Push(0, 1)) == [Some(x), Some(y)]
    ensures !x.ListTree? || i < 0 ==> Apply([Some(x), Some(y)], StoreItem(0, i, 1)) == [Some(x), Some(y)]
    ensures Apply([Some(x), None], Store(0, name, 1)) == [Some(x), None]
    ensures Apply([Some(x), None], Push(0, 1)) == [Some(x), None]
  {
  }

  /** An outcome wrapped, shared, consumed by an object and released: the object gets its
      tree, and it lasts while there is a reference. */
  lemma OutcomesOnTrees(x: Tree, name: string)
    ensures Act(State([Some(x)], []), Wrap(0)) == State([None], [Some(Shared(1, Some(x)))])
    ensures Act(State([], [Some(Shared(1, Some(x)))]), Share(0)) == State([], [Some(Shared(2, Some(x)))])
    ensures Act(State([Some(ObjectTree([], []))], [Some(Shared(2, Some(x)))]), Consume(0, name, 0))
            == State([Some(ObjectTree([name], [x]))], [Some(Shared(2, Some(x)))])
    ensures Act(State([Some(ObjectTree([], []))], [Some(Shared(1, Some(x)))]), Consume(0, name, 0))
            == State([Some(ObjectTree([name], [x]))], [Some(Shared(1, None))])
    ensures Act(State([], [Some(Shared(2, Some(x)))]), Release(0)) == State([], [Some(Shared(1, Some(x)))])
    ensures Act(State([], [Some(Shared(1, Some(x)))]), Release(0)) == State([], [None])
  {
    assert [] + [name] == [name] && [] + [x] == [x];
  }

  // ----- Layouts and trees -----

  ghost function HandleTree(l: Layout): Option<Tree> {
    if l.Hole? then None else Some(Meaning(l))
  }

  /** What the handles of a forest mean. */
  ghost function TreesOf(forest: seq<Layout>): (ts: Trees)
    ensures |ts| == |forest| && forall h :: 0 <= h < |forest| ==> ts[h] == HandleTree(forest[h])
  {
    seq(|forest|, h requires 0 <= h < |forest| => HandleTree(forest[h]))
  }

  lemma StoredMeanings(children: seq<Layout>, index: nat, c: Layout)
    ensures Meanings(StoredAt(children, index, c)) == ItemsWith(Meanings(children), index, Meaning(c))
  {
  }

  /** Exchanging one layout of a list exchanges its cells. */
  lemma CellsExchange(ls: seq<Layout>, i: nat, x: Layout)
    requires i < |ls|
    ensures CellsOf(ls[i := x]) + Cells(ls[i]) == CellsOf(ls) + Cells(x)
  {
    CellsAt(ls, i);
    CellsAt(ls[i := x], i);
    assert ls[i := x][..i] == ls[..i] && ls[i := x][i + 1..] == ls[i + 1..];
  }

  lemma OneApart(ls: seq<Layout>, h: nat)
    requires h < |ls|
    ensures CellsOf(ls) == Cells(ls[h]) + CellsOf(ls[h := Hole])
  {
    CellsExchange(ls, h, Hole);
    assert CellsOf(ls[h := Hole]) + Cells(ls[h]) == CellsOf(ls);
  }

  /** The cells of two layouts of a list and of the rest. */
  lemma TwoApart(ls: seq<Layout>, t: nat, c: nat)
    requires t < |ls| && c < |ls| && t != c
    ensures CellsOf(ls) == Cells(ls[t]) + Cells(ls[c]) + CellsOf(ls[t := Hole][c := Hole])
  {
    OneApart(ls, t);
    OneApart(ls[t := Hole], c);
  }

  /** The handles point to the values of the forest, which memory holds. */
  ghost predicate Tracks(nodes: Memory, handles: seq<Option<nat>>, forest: seq<Layout>) {
    && AllAt(nodes, forest) && |handles| == |forest|
    && forall h :: 0 <= h < |handles| ==> handles[h] == Address(forest[h])
  }

  lemma TracksAdded(nodes: Memory, nodes': Memory, handles: seq<Option<nat>>, forest: seq<Layout>, l: Layout)
    requires Tracks(nodes, handles, forest) && Unchanged(nodes, nodes', CellsOf(forest)) && At(nodes', l)
    ensures Tracks(nodes', handles + [Address(l)], forest + [l])
    ensures CellsOf(forest + [l]) == CellsOf(forest) + Cells(l)
    ensures !l.Hole? ==> TreesOf(forest + [l]) == TreesOf(forest) + [Some(Meaning(l))]
  {
    AllAtUnchanged(nodes, nodes', forest);
    CellsConcat(forest, [l]);
    assert [l][1..] == [];
  }

  lemma TreesUpdate(forest: seq<Layout>, h: nat, l: Layout)
    requires h < |forest|
    ensures TreesOf(forest[h := l]) == TreesOf(forest)[h := HandleTree(l)]
  {
  }

  lemma TracksDropped(nodes: Memory, nodes': Memory, handles: seq<Option<nat>>, forest: seq<Layout>, h: nat)
    requires h < |forest| && Tracks(nodes, handles, forest) && Unchanged(nodes, nodes', CellsOf(forest[h := Hole]))
    ensures Tracks(nodes', handles[h := None], forest[h := Hole])
    ensures TreesOf(forest[h := Hole]) == TreesOf(forest)[h := None]
  {
    var rest := forest[h := Hole];
    assert AllAt(nodes, rest);
    AllAtUnchanged(nodes, nodes', rest);
    TreesUpdate(forest, h, Hole);
  }

  lemma PutBack<T>(s: seq<T>, t: nat, x: T)
    requires t < |s|
    ensures s[t := x][t := s[t]] == s
  {
  }

  lemma TracksPut(nodes: Memory, handles: seq<Option<nat>>, forest: seq<Layout>, t: nat, l: Layout)
    requires t < |forest| && forest[t] == Hole && Tracks(nodes, handles, forest) && At(nodes, l) && !l.Hole?
    ensures Tracks(nodes, handles[t := Address(l)], forest[t := l])
    ensures TreesOf(forest[t := l]) == TreesOf(forest)[t := Some(Meaning(l))]
    ensures CellsOf(forest[t := l]) == Cells(l) + CellsOf(forest)
  {
    OneApart(forest[t := l], t);
    PutBack(forest, t, l);
    TreesUpdate(forest, t, l);
  }

  lemma TracksMoved(nodes: Memory, nodes': Memory, handles: seq<Option<nat>>, forest: seq<Layout>, t: nat, c: nat,
                    l: Layout)
    requires t < |forest| && c < |forest| && t != c && !l.Hole? && Address(l) == Address(forest[t]) && At(nodes', l)
    requires Tracks(nodes, handles, forest) && Unchanged(nodes, nodes', CellsOf(forest[t := Hole][c := Hole]))
    ensures var after := forest[t := Hole][c := Hole][t := l];
            && Tracks(nodes', handles[c := None], after)
            && TreesOf(after) == TreesOf(forest)[t := Some(Meaning(l))][c := None]
            && CellsOf(after) == Cells(l) + CellsOf(forest[t := Hole][c := Hole])
  {
    TracksDropped(nodes, nodes, handles, forest, t);
    TracksDropped(nodes, nodes', handles[t := None], forest[t := Hole], c);
    TracksPut(nodes', handles[t := None][c := None], forest[t := Hole][c := Hole], t, l);
    UpdateAgain(handles, t, c, None, Address(l));
    assert handles[t := Address(l)] == handles;
    UpdateAgain(TreesOf(forest), t, c, None, Some(Meaning(l)));
  }

  lemma UpdateAgain<T>(s: seq<T>, t: nat, c: nat, gone: T, x: T)
    requires t < |s| && c < |s| && t != c
    ensures s[t := gone][c := gone][t := x] == s[t := x][c := gone]
  {
  }

  /** What a step does, in terms of layouts. */
  lemma StoreApplies(forest: seq<Layout>, t: nat, name: string, c: nat)
    requires Possible(Store(t, name, c), |forest|)
    ensures Apply(TreesOf(forest), Store(t, name, c))
            == if forest[t].ObjectAt? && !forest[c].Hole?
               then TreesOf(forest)[t := Some(ObjectTree(forest[t].names + [name],
                                                         Meanings(forest[t].children) + [Meaning(forest[c])]))]
                                   [c := None]
               else TreesOf(forest)
  {
  }

  lemma PushApplies(forest: seq<Layout>, t: nat, c: nat)
    requires Possible(Push(t, c), |forest|)
    ensures Apply(TreesOf(forest), Push(t, c))
            == if forest[t].ListAt? && !forest[c].Hole?
               then TreesOf(forest)[t := Some(ListTree(Meanings(forest[t].children) + [Meaning(forest[c])]))][c := None]
               else TreesOf(forest)
  {
  }

  lemma StoreItemApplies(forest: seq<Layout>, t: nat, i: int, c: nat)
    requires Possible(StoreItem(t, i, c), |forest|)
    ensures Apply(TreesOf(forest), StoreItem(t, i, c))
            == if forest[t].ListAt? && i >= 0 && !forest[c].Hole?
               then TreesOf(forest)[t := Some(ListTree(ItemsWith(Meanings(forest[t].children), i, Meaning(forest[c]))))]
                                   [c := None]
               else TreesOf(forest)
  {
  }

  lemma CopyApplies(forest: seq<Layout>, h: nat)
    requires h < |forest|
    ensures Apply(TreesOf(forest), Copy(h)) == TreesOf(forest) + [Some(Meaning(forest[h]))]
  {
  }

  lemma Apart(x: multiset<nat>, y: multiset<nat>, z: multiset<nat>, rest: multiset<nat>)
    ensures x + y + z + rest == x + y + (z + rest)
    ensures x + y + rest == x + (y + rest)
    ensures x + rest + y == x + y + rest
    ensures x + y == y + x
  {
  }

  lemma AppendedItem(l: Layout, x: Layout)
    requires l.ListAt?
    ensures var after := ListAt(l.at, l.children + [x]);
            Cells(after) == Cells(l) + Cells(x) && Meaning(after) == ListTree(Meanings(l.children) + [Meaning(x)])
  {
    AppendedCells(l.at, [], l.children, "", x);
  }

  lemma AppendedEntry(l: Layout, name: string, x: Layout)
    requires l.ObjectAt?
    ensures var after := ObjectAt(l.at, l.names + [name], l.children + [x]);
            && Cells(after) == Cells(l) + Cells(x)
            && Meaning(after) == ObjectTree(l.names + [name], Meanings(l.children) + [Meaning(x)])
  {
    AppendedCells(l.at, l.names, l.children, name, x);
  }

  lemma UnchangedParts(nodes: Memory, nodes': Memory, x: multiset<nat>, y: multiset<nat>)
    requires Unchanged(nodes, nodes', x + y)
    ensures Unchanged(nodes, nodes', x) && Unchanged(nodes, nodes', y)
  {
    assert forall a :: a in x || a in y ==> a in x + y;
  }

  lemma ApartInBoth(xs: seq<Layout>, t: nat, ys: seq<Layout>, o: nat)
    requires t < |xs| && o < |ys|
    ensures CellsOf(xs) + CellsOf(ys) == Cells(xs[t]) + Cells(ys[o]) + (CellsOf(xs[t := Hole]) + CellsOf(ys[o := Hole]))
  {
    OneApart(xs, t);
    OneApart(ys, o);
  }

  lemma Gathered(a: multiset<nat>, r: multiset<nat>, x: multiset<nat>, y: multiset<nat>)
    ensures a + r + (x + y) == a + (x + (r + y))
  {
  }

  /** One held value is exchanged, the others stay. */
  lemma HeldExchanged(nodes: Memory, nodes': Memory, held: seq<Layout>, o: nat, l: Layout)
    requires o < |held| && AllAt(nodes, held) && At(nodes', l) && Unchanged(nodes, nodes', CellsOf(held[o := Hole]))
    ensures AllAt(nodes', held[o := l]) && CellsOf(held[o := l]) == Cells(l) + CellsOf(held[o := Hole])
  {
    assert AllAt(nodes, held[o := Hole]);
    AllAtUnchanged(nodes, nodes', held[o := Hole]);
    OneApart(held[o := l], o);
    assert held[o := l][o := Hole] == held[o := Hole];
    var after := held[o := l];
    forall i | 0 <= i < |after| ensures At(nodes', after[i]) {
      assert i != o ==> after[i] == held[o := Hole][i];
    }
  }

  lemma HeldAppended(nodes: Memory, held: seq<Layout>, l: Layout)
    requires AllAt(nodes, held) && At(nodes, l)
    ensures AllAt(nodes, held + [l])
    ensures CellsOf(held + [l]) == Cells(l) + CellsOf(held) && CellsOf(held + [l]) == CellsOf(held) + Cells(l)
  {
    CellsConcat(held, [l]);
    assert [l][1..] == [];
  }

  /** Numbered handles to values on a heap that also holds other values, in `rest`. */
  class HandleTable {
    const heap: NodeHeap
    var handles: seq<Option<nat>>
    ghost var forest: seq<Layout>

    constructor (heap: NodeHeap)
      ensures this.heap == heap && handles == [] && forest == []
    {
      this.heap := heap;
      handles, forest := [], [];
    }

    /** Every node of memory is on the free list, in exactly one handle's value, or in
        the rest, once. */
    ghost predicate Valid(rest: multiset<nat>)
      reads this, heap
    {
      heap.Valid(CellsOf(forest) + rest) && Tracks(heap.nodes, handles, forest)
    }

    ghost function Trees(): (ts: Trees)
      reads this
      ensures |ts| == |forest|
    {
      TreesOf(forest)
    }

    /** Carries out a step in memory; the rest stays as it is. */
    method Perform(step: Step, ghost rest: multiset<nat>)
      requires Valid(rest) && Possible(step, |handles|)
      modifies this, heap
      ensures Valid(rest) && Trees() == Apply(old(Trees()), step)
      ensures Unchanged(old(heap.nodes), heap.nodes, rest)
    {
      match step {
        case AddScalar(s) =>
          var a := heap.NewScalar(s, CellsOf(forest) + rest);
          Add(a, LeafAt(a, s), old(heap.nodes), rest);
        case AddObject =>
          var a := heap.NewObject(CellsOf(forest) + rest);
          Add(a, ObjectAt(a, [], []), old(heap.nodes), rest);
        case AddList =>
          var a := heap.NewList(CellsOf(forest) + rest);
          Add(a, ListAt(a, []), old(heap.nodes), rest);
        case Store(t, name, c) =>
          PerformStore(t, name, c, rest);
        case Push(t, c) =>
          PerformPush(t, c, rest);
        case StoreItem(t, i, c) =>
          PerformStoreItem(t, i, c, rest);
        case Copy(h) =>
          PerformCopy(h, rest);
        case Drop(h) =>
          PerformDrop(h, rest);
      }
    }

    /** Gives a new value a handle. */
    method Add(a: nat, ghost l: Layout, ghost nodes0: Memory, ghost rest: multiset<nat>)
      requires heap.Valid(CellsOf(forest) + rest + Cells(l)) && At(heap.nodes, l) && Address(l) == Some(a)
      requires Tracks(nodes0, handles, forest) && Unchanged(nodes0, heap.nodes, CellsOf(forest) + rest)
      modifies this
      ensures Valid(rest) && Trees() == old(Trees()) + [Some(Meaning(l))]
    {
      TracksAdded(nodes0, heap.nodes, handles, forest, l);
      Apart(CellsOf(forest), Cells(l), multiset{}, rest);
      handles := handles + [Some(a)];
      forest := forest + [l];
    }

    /** After `c` has been moved into `t`. */
    method Moved(t: nat, c: nat, ghost l: Layout, ghost nodes0: Memory, ghost rest: multiset<nat>)
      requires t < |forest| && c < |forest| && t != c && !l.Hole? && Address(l) == Address(forest[t])
      requires heap.Valid(Cells(l) + (CellsOf(forest[t := Hole][c := Hole]) + rest)) && At(heap.nodes, l)
      requires Tracks(nodes0, handles, forest) && Unchanged(nodes0, heap.nodes, CellsOf(forest[t := Hole][c := Hole]))
      modifies this
      ensures Valid(rest) && Trees() == old(Trees())[t := Some(Meaning(l))][c := None]
    {
      TracksMoved(nodes0, heap.nodes, handles, forest, t, c, l);
      Apart(Cells(l), CellsOf(forest[t := Hole][c := Hole]), multiset{}, rest);
      handles := handles[c := None];
      forest := forest[t := Hole][c := Hole][t := l];
    }

    method PerformStore(t: nat, name: string, c: nat, ghost rest: multiset<nat>)
      requires Valid(rest) && Possible(Store(t, name, c), |handles|)
      modifies this, heap
      ensures Valid(rest) && Trees() == Apply(old(Trees()), Store(t, name, c))
      ensures Unchanged(old(heap.nodes), heap.nodes, rest)
    {
      ghost var l, x, others := forest[t], forest[c], CellsOf(forest[t := Hole][c := Hole]);
      ghost var nodes0 := heap.nodes;
      TwoApart(forest, t, c);
      Apart(Cells(l), Cells(x), others, rest);
      var moves := handles[t].Some? && heap.nodes[handles[t].value].kind == ObjectKind && handles[c].Some?;
      StoreApplies(forest, t, name, c);
      heap.ObjectStore(handles[t], Some(name), handles[c], l, x, others + rest);
      UnchangedParts(nodes0, heap.nodes, others, rest);
      if moves {
        ghost var after := ObjectAt(l.at, l.names + [name], l.children + [x]);
        AppendedEntry(l, name, x);
        Moved(t, c, after, nodes0, rest);
      }
    }

    method PerformPush(t: nat, c: nat, ghost rest: multiset<nat>)
      requires Valid(rest) && Possible(Push(t, c), |handles|)
      modifies this, heap
      ensures Valid(rest) && Trees() == Apply(old(Trees()), Push(t, c))
      ensures Unchanged(old(heap.nodes), heap.nodes, rest)
    {
      ghost var l, x, others := forest[t], forest[c], CellsOf(forest[t := Hole][c := Hole]);
      ghost var nodes0 := heap.nodes;
      TwoApart(forest, t, c);
      Apart(Cells(l), Cells(x), others, rest);
      var moves := handles[t].Some? && heap.nodes[handles[t].value].kind == ListKind && handles[c].Some?;
      PushApplies(forest, t, c);
      heap.ListPush(handles[t], handles[c], l, x, others + rest);
      UnchangedParts(nodes0, heap.nodes, others, rest);
      if moves {
        ghost var after := ListAt(l.at, l.children + [x]);
        AppendedItem(l, x);
        Moved(t, c, after, nodes0, rest);
      }
    }

    method PerformStoreItem(t: nat, i: int, c: nat, ghost rest: multiset<nat>)
      requires Valid(rest) && Possible(StoreItem(t, i, c), |handles|)
      modifies this, heap
      ensures Valid(rest) && Trees() == Apply(old(Trees()), StoreItem(t, i, c))
      ensures Unchanged(old(heap.nodes), heap.nodes, rest)
    {
      ghost var l, x, others := forest[t], forest[c], CellsOf(forest[t := Hole][c := Hole]);
      ghost var nodes0 := heap.nodes;
      TwoApart(forest, t, c);
      Apart(Cells(l), Cells(x), others, rest);
      var moves := handles[t].Some? && heap.nodes[handles[t].value].kind == ListKind && i >= 0 && handles[c].Some?;
      StoreItemApplies(forest, t, i, c);
      ghost var after := heap.ListStoreAt(handles[t], i, handles[c], l, x, others + rest);
      UnchangedParts(nodes0, heap.nodes, others, rest);
      if moves {
        StoredMeanings(l.children, i, x);
        Moved(t, c, after, nodes0, rest);
      }
    }

    method PerformCopy(h: nat, ghost rest: multiset<nat>)
      requires Valid(rest) && h < |handles|
      modifies this, heap
      ensures Valid(rest) && Trees() == Apply(old(Trees()), Copy(h))
      ensures Unchanged(old(heap.nodes), heap.nodes, rest)
    {
      OneApart(forest, h);
      CopyApplies(forest, h);
      ghost var nodes0 := heap.nodes;
      var a;
      ghost var copy;
      a, copy := heap.Clone(handles[h], forest[h], CellsOf(forest) + rest);
      Apart(Cells(copy), CellsOf(forest) + rest, multiset{}, multiset{});
      Add(a, copy, nodes0, rest);
    }

    method PerformDrop(h: nat, ghost rest: multiset<nat>)
      requires Valid(rest) && h < |handles|
      modifies this, heap
      ensures Valid(rest) && Trees() == Apply(old(Trees()), Drop(h))
      ensures Unchanged(old(heap.nodes), heap.nodes, rest)
    {
      var value;
      ghost var l;
      value, l := TakeOut(h, rest);
      ghost var nodes0 := heap.nodes;
      Ahead(CellsOf(forest), Cells(l), rest);
      heap.Destroy(value, l, CellsOf(forest) + rest);
      UnchangedParts(nodes0, heap.nodes, CellsOf(forest), rest);
      AllAtUnchanged(nodes0, heap.nodes, forest);
    }

    /** Takes a value out of its handle; the caller has it now. */
    method TakeOut(h: nat, ghost rest: multiset<nat>) returns (value: Option<nat>, ghost l: Layout)
      requires Valid(rest) && h < |handles|
      modifies this
      ensures l == old(forest)[h] && value == Address(l) && At(heap.nodes, l)
      ensures Valid(Cells(l) + rest) && Trees() == old(Trees())[h := None]
    {
      value, l := handles[h], forest[h];
      OneApart(forest, h);
      TracksDropped(heap.nodes, heap.nodes, handles, forest, h);
      Apart(Cells(l), CellsOf(forest[h := Hole]), multiset{}, rest);
      Apart(CellsOf(forest[h := Hole]), Cells(l), multiset{}, rest);
      handles := handles[h := None];
      forest := forest[h := Hole];
    }

    /** After the value at `t` has changed in place. */
    ghost method Changed(t: nat, l: Layout, nodes0: Memory, rest: multiset<nat>)
      requires t < |forest| && !l.Hole? && Address(l) == Address(forest[t]) && At(heap.nodes, l)
      requires heap.Valid(Cells(l) + (CellsOf(forest[t := Hole]) + rest))
      requires Tracks(nodes0, handles, forest) && Unchanged(nodes0, heap.nodes, CellsOf(forest[t := Hole]))
      modifies this`forest
      ensures Valid(rest) && Trees() == old(Trees())[t := Some(Meaning(l))]
    {
      TracksDropped(nodes0, heap.nodes, handles, forest, t);
      TracksPut(heap.nodes, handles[t := None], forest[t := Hole], t, l);
      assert handles[t := None][t := Address(l)] == handles;
      Apart(Cells(l), CellsOf(forest[t := Hole]), multiset{}, rest);
      assert TreesOf(forest)[t := None][t := Some(Meaning(l))] == TreesOf(forest)[t := Some(Meaning(l))];
      forest := forest[t := Hole][t := l];
    }

    /** Takes a value out for an outcome to own; without one it is a null. */
    method TakeOutOrNull(h: nat, ghost held: seq<Layout>) returns (value: Option<nat>, ghost l: Layout)
      requires Valid(CellsOf(held)) && AllAt(heap.nodes, held) && h < |handles|
      modifies this, heap
      ensures !l.Hole? && value == Address(l) && Meaning(l) == OrNull(old(Trees())[h])
      ensures Valid(CellsOf(held + [l])) && AllAt(heap.nodes, held + [l]) && Trees() == old(Trees())[h := None]
    {
      value, l := TakeOut(h, CellsOf(held));
      if value.None? {
        NoCells(l, CellsOf(held));
        value, l := NewNull(held);
      } else {
        HeldAppended(heap.nodes, held, l);
      }
    }

    method NewNull(ghost held: seq<Layout>) returns (value: Option<nat>, ghost l: Layout)
      requires Valid(CellsOf(held)) && AllAt(heap.nodes, held)
      modifies heap
      ensures l.LeafAt? && l.scalar == NoScalar && value == Address(l)
      ensures Valid(CellsOf(held + [l])) && AllAt(heap.nodes, held + [l])
    {
      ghost var nodes0 := heap.nodes;
      var a := heap.NewScalar(NoScalar, CellsOf(forest) + CellsOf(held));
      UnchangedParts(nodes0, heap.nodes, CellsOf(forest), CellsOf(held));
      value, l := Some(a), LeafAt(a, NoScalar);
      AllAtUnchanged(nodes0, heap.nodes, held);
      AllAtUnchanged(nodes0, heap.nodes, forest);
      HeldAppended(heap.nodes, held, l);
      Apart(CellsOf(forest), CellsOf(held), multiset{}, Cells(l));
    }

    /** Stores an outcome's value, one of the held ones, under a name. */
    method ConsumeInto(t: nat, name: string, x: Outcome, ghost held: seq<Layout>, ghost o: nat)
      returns (ghost left: seq<Layout>)
      requires Valid(CellsOf(held)) && AllAt(heap.nodes, held) && t < |handles| && o < |held|
               && x.value == Address(held[o])
      modifies this, heap, x`value
      ensures Valid(CellsOf(left)) && AllAt(heap.nodes, left) && |left| == |held| && x.value == Address(left[o])
      ensures if old(Trees())[t].Some? && old(Trees())[t].value.ObjectTree?
              then left == held[o := if x.refcount == 1 then Hole else held[o]] &&
                   Trees() == old(Trees())[t := Some(Stored(old(Trees())[t].value, name, OrNull(HandleTree(held[o]))))]
              else left == held && Trees() == old(Trees())
    {
      left := held;
      if handles[t].Some? && heap.nodes[handles[t].value].kind == ObjectKind {
        left := ConsumeStored(t, name, x, held, o);
      } else {
        ghost var others := CellsOf(forest[t := Hole]) + CellsOf(held[o := Hole]);
        ApartInBoth(forest, t, held, o);
        ghost var after, remaining := heap.Consume(handles[t], Some(name), x, forest[t], held[o], others);
      }
    }

    method ConsumeStored(t: nat, name: string, x: Outcome, ghost held: seq<Layout>, ghost o: nat)
      returns (ghost left: seq<Layout>)
      requires Valid(CellsOf(held)) && AllAt(heap.nodes, held) && t < |handles| && o < |held|
               && x.value == Address(held[o])
      requires forest[t].ObjectAt?
      modifies this, heap, x`value
      ensures Valid(CellsOf(left)) && AllAt(heap.nodes, left)
      ensures left == held[o := if x.refcount == 1 then Hole else held[o]] && x.value == Address(left[o])
      ensures Trees() == old(Trees())[t := Some(Stored(Meaning(old(forest)[t]), name, Meaning(held[o])))]
    {
      ghost var l, nodes0 := forest[t], heap.nodes;
      ghost var xs, ys := CellsOf(forest[t := Hole]), CellsOf(held[o := Hole]);
      ApartInBoth(forest, t, held, o);
      ghost var after, remaining := heap.Consume(handles[t], Some(name), x, l, held[o], xs + ys);
      UnchangedParts(nodes0, heap.nodes, xs, ys);
      left := held[o := remaining];
      HeldExchanged(nodes0, heap.nodes, held, o, remaining);
      Gathered(Cells(after), Cells(remaining), xs, ys);
      Changed(t, after, nodes0, CellsOf(left));
    }

    /** Gives up a reference to the outcome of a held value. */
    method ReleaseHeld(x: Outcome, ghost held: seq<Layout>, ghost o: nat) returns (last: bool, ghost left: seq<Layout>)
      requires Valid(CellsOf(held)) && AllAt(heap.nodes, held) && o < |held|
      requires x.value == Address(held[o]) && x.refcount > 0
      modifies heap, x`refcount
      ensures last == (old(x.refcount) == 1)
      ensures left == if last then held[o := Hole] else held
      ensures !last ==> x.refcount == old(x.refcount) - 1
      ensures Valid(CellsOf(left)) && AllAt(heap.nodes, left) && Trees() == old(Trees())
    {
      last, left := x.refcount == 1, held;
      ghost var nodes0, others := heap.nodes, CellsOf(forest) + CellsOf(held[o := Hole]);
      OneApart(held, o);
      Ahead(CellsOf(forest), Cells(held[o]), CellsOf(held[o := Hole]));
      heap.ReleaseOutcome(x, held[o], others);
      UnchangedParts(nodes0, heap.nodes, CellsOf(forest), CellsOf(held[o := Hole]));
      if last {
        left := held[o := Hole];
        HeldExchanged(nodes0, heap.nodes, held, o, Hole);
        AllAtUnchanged(nodes0, heap.nodes, forest);
      }
    }
  }

  lemma NoCells(l: Layout, cells: multiset<nat>)
    requires l.Hole?
    ensures Cells(l) + cells == cells
  {
  }

  lemma Ahead(x: multiset<nat>, y: multiset<nat>, z: multiset<nat>)
    ensures x + (y + z) == y + (x + z)
  {
  }

  /** An object with one more entry. */
  function Stored(t: Tree, name: string, child: Tree): Tree
    requires t.ObjectTree?
  {
    ObjectTree(t.names + [name], t.children + [child])
  }

  /** The outcomes a table describes: their counts, and the layouts of their values. */
  ghost function OutcomesOf(counts: seq<nat>, held: seq<Layout>): (os: seq<Option<Shared>>)
    requires |counts| == |held|
    ensures |os| == |counts|
    ensures forall o :: 0 <= o < |counts| ==>
              os[o] == if counts[o] == 0 then None else Some(Shared(counts[o], HandleTree(held[o])))
  {
    seq(|counts|, o requires 0 <= o < |counts| =>
      if counts[o] == 0 then None else Some(Shared(counts[o], HandleTree(held[o]))))
  }

  lemma ConsumeActs(trees: Trees, os: seq<Option<Shared>>, t: nat, name: string, o: nat)
    requires Allowed(Consume(t, name, o), State(trees, os))
    ensures Act(State(trees, os), Consume(t, name, o))
            == if trees[t].Some? && trees[t].value.ObjectTree?
               then State(trees[t := Some(Stored(trees[t].value, name, OrNull(os[o].value.tree)))],
                          os[o := Some(Shared(os[o].value.count,
                                              if os[o].value.count == 1 then None else os[o].value.tree))])
               else State(trees, os)
  {
  }

  lemma OutcomeAdded(counts: seq<nat>, held: seq<Layout>, l: Layout)
    requires |counts| == |held| && !l.Hole?
    ensures OutcomesOf(counts + [1], held + [l]) == OutcomesOf(counts, held) + [Some(Shared(1, Some(Meaning(l))))]
  {
  }

  lemma OutcomeChanged(counts: seq<nat>, held: seq<Layout>, o: nat, count: nat, l: Layout)
    requires |counts| == |held| && o < |held|
    ensures OutcomesOf(counts[o := count], held[o := l])
            == OutcomesOf(counts, held)[o := if count == 0 then None else Some(Shared(count, HandleTree(l)))]
  {
  }

  /** A heap, an owner's handles, and the outcomes it has references to. */
  class Owner {
    const heap: NodeHeap
    const table: HandleTable
    var outcomes: seq<Option<Outcome>>
    ghost var counts: seq<nat>
    ghost var held: seq<Layout>

    constructor ()
      ensures Valid() && Described() == State([], []) && fresh(heap) && fresh(table)
    {
      var h := new NodeHeap();
      heap := h;
      table := new HandleTable(h);
      outcomes, counts, held := [], [], [];
    }

    ghost function Objects(): set<Outcome>
      reads this
    {
      set x | x in outcomes && x.Some? :: x.value
    }

    /** Each outcome object is in the table once, with its count and its value; but for
        number `k`, which may be changing. */
    ghost predicate OutcomesMatchBut(k: int)
      reads this, Objects()
    {
      && |outcomes| == |counts| == |held|
      && (forall o, p :: 0 <= o < p < |outcomes| && outcomes[o].Some? ==> outcomes[o] != outcomes[p])
      && forall o :: 0 <= o < |outcomes| && o != k ==>
           if outcomes[o].None? then counts[o] == 0 && held[o] == Hole
           else outcomes[o].value.refcount == counts[o] > 0 && outcomes[o].value.value == Address(held[o])
    }

    /** Every node of memory is on the free list, in exactly one handle's value, or in
        exactly one outcome's value, once. */
    ghost predicate Valid()
      reads this, table, heap, Objects()
    {
      table.heap == heap && table.Valid(CellsOf(held)) && AllAt(heap.nodes, held) && OutcomesMatchBut(-1)
    }

    ghost function Described(): State
      requires |counts| == |held|
      reads this, table
    {
      State(table.Trees(), OutcomesOf(counts, held))
    }

    /** Carries out an action in memory. */
    method Perform(action: Action)
      requires Valid() && Allowed(action, Described())
      modifies this, table, heap, Objects()
      ensures Valid() && Described() == Act(old(Described()), action)
      ensures forall x :: x in Objects() ==> x in old(Objects()) || fresh(x)
    {
      match action {
        case On(step) =>
          PerformStep(step);
        case Wrap(h) =>
          PerformWrap(h);
        case Share(o) =>
          PerformShare(o);
        case Consume(t, name, o) =>
          PerformConsume(t, name, o);
        case Release(o) =>
          PerformRelease(o);
      }
    }

    method PerformStep(step: Step)
      requires Valid() && Possible(step, |table.handles|)
      modifies table, heap
      ensures Valid() && Described() == Act(old(Described()), On(step))
    {
      ghost var nodes0 := heap.nodes;
      table.Perform(step, CellsOf(held));
      AllAtUnchanged(nodes0, heap.nodes, held);
    }

    /** A new outcome owns the value; without one it gets a null. */
    method PerformWrap(h: nat)
      requires Valid() && h < |table.handles|
      modifies this, table, heap
      ensures Valid() && Described() == Act(old(Described()), Wrap(h))
      ensures forall x :: x in Objects() ==> x in old(Objects()) || fresh(x)
    {
      var value;
      ghost var l;
      value, l := table.TakeOutOrNull(h, held);
      var x := new Outcome(value);
      OutcomeAdded(counts, held, l);
      outcomes := outcomes + [Some(x)];
      counts := counts + [1];
      held := held + [l];
    }

    method PerformShare(o: nat)
      requires Valid() && o < |outcomes| && outcomes[o].Some?
      modifies this, Objects()
      ensures Valid() && Described() == Act(old(Described()), Share(o))
      ensures Objects() == old(Objects())
    {
      ghost var count := counts[o] + 1;
      outcomes[o].value.refcount := outcomes[o].value.refcount + 1;
      assert held[o := held[o]] == held;
      Settle(o, count, held[o]);
    }

    method PerformConsume(t: nat, name: string, o: nat)
      requires Valid() && t < |table.handles| && o < |outcomes| && outcomes[o].Some?
      modifies this, table, heap, Objects()
      ensures Valid() && Described() == Act(old(Described()), Consume(t, name, o))
      ensures Objects() == old(Objects())
    {
      ghost var trees, os := table.Trees(), OutcomesOf(counts, held);
      ConsumeActs(trees, os, t, name, o);
      ghost var left := table.ConsumeInto(t, name, outcomes[o].value, held, o);
      assert held[o := left[o]] == left;
      Settle(o, counts[o], left[o]);
      assert os[o := os[o]] == os;
    }

    method PerformRelease(o: nat)
      requires Valid() && o < |outcomes| && outcomes[o].Some?
      modifies this, heap, Objects()
      ensures Valid() && Described() == Act(old(Described()), Release(o))
      ensures Objects() <= old(Objects())
    {
      var last;
      ghost var left;
      last, left := table.ReleaseHeld(outcomes[o].value, held, o);
      assert held[o := left[o]] == left;
      if last {
        Forget(o);
      } else {
        Settle(o, counts[o] - 1, left[o]);
      }
    }

    /** Records the count and the value of an outcome that has changed. */
    ghost method Settle(o: nat, count: nat, l: Layout)
      requires table.heap == heap && OutcomesMatchBut(o) && o < |outcomes| && outcomes[o].Some?
      requires outcomes[o].value.refcount == count > 0 && outcomes[o].value.value == Address(l)
      requires table.Valid(CellsOf(held[o := l])) && AllAt(heap.nodes, held[o := l])
      modifies this`counts, this`held
      ensures Valid() && table.Trees() == old(table.Trees())
      ensures OutcomesOf(counts, held) == old(OutcomesOf(counts, held))[o := Some(Shared(count, HandleTree(l)))]
    {
      OutcomeChanged(counts, held, o, count, l);
      counts := counts[o := count];
      held := held[o := l];
    }

    /** Removes an outcome whose last reference is gone. */
    method Forget(o: nat)
      requires table.heap == heap && OutcomesMatchBut(o) && o < |outcomes|
      requires table.Valid(CellsOf(held[o := Hole])) && AllAt(heap.nodes, held[o := Hole])
      modifies this`outcomes, this`counts, this`held
      ensures Valid() && table.Trees() == old(table.Trees()) && Objects() <= old(Objects())
      ensures OutcomesOf(counts, held) == old(OutcomesOf(counts, held))[o := None]
    {
      OutcomeChanged(counts, held, o, 0, Hole);
      outcomes := outcomes[o := None];
      counts := counts[o := 0];
      held := held[o := Hole];
    }

    /** Carries out a run. */
    method Run(actions: seq<Action>)
      requires Valid() && AllAllowed(actions, Described())
      modifies this, table, heap, Objects()
      ensures Valid() && Described() == ActAll(old(Described()), actions)
    {
      ghost var start := Described();
      for i := 0 to |actions|
        invariant Valid() && AllAllowed(actions[i..], Described())
        invariant ActAll(Described(), actions[i..]) == ActAll(start, actions)
        invariant forall x :: x in Objects() ==> x in old(Objects()) || fresh(x)
      {
        assert actions[i..][1..] == actions[i + 1..];
        Perform(actions[i]);
      }
    }
  }
}
