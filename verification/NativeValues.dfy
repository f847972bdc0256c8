/**
 Native result values: nodes with retained child arrays, recycled through a
 capped free list, and the trees their owners build from them.
 */
module NativeValues {
  import opened Values

  /** A scalar: nothing, an integer, a number, text and its encoding flag, or a
      reference kept as it is. */
  datatype Scalar = NoScalar | Whole(n: int) | Number(x: real) | Text(text: string, utf8: bool) | Kept(id: nat)

  datatype Kind = ScalarKind | ObjectKind | ListKind

  /** A node. Its two pairs of arrays outlive the value it holds; `count` and
      `length` say how much of each is in use. */
  datatype Node = Node(kind: Kind, scalar: Scalar,
                       names: seq<Option<string>>, values: seq<Option<nat>>, count: nat,
                       items: seq<Option<nat>>, length: nat, next: Option<nat>)

  type Memory = map<nat, Node>

  /** How many released nodes are kept for reuse. */
  const POOL_MAX: nat := 4096

  // ----- What a node tree means, and where it lies -----

  /** A result value. Empty text is the same with either encoding flag. */
  datatype Tree =
    | Leaf(scalar: Scalar)
    | ObjectTree(names: seq<string>, children: seq<Tree>)
    | ListTree(items: seq<Tree>)

  /** A result value laid out in memory; a null pointer is a hole. */
  datatype Layout =
    | Hole
    | LeafAt(at: nat, scalar: Scalar)
    | ObjectAt(at: nat, names: seq<string>, children: seq<Layout>)
    | ListAt(at: nat, children: seq<Layout>)

  function Address(l: Layout): Option<nat> {
    if l.Hole? then None else Some(l.at)
  }

  function Plain(s: Scalar): Scalar {
    if s.Text? && s.text == "" then Text("", false) else s
  }

  ghost function Meaning(l: Layout): Tree {
    match l
    case Hole => Leaf(NoScalar)
    case LeafAt(_, s) => Leaf(Plain(s))
    case ObjectAt(_, names, children) => ObjectTree(names, Meanings(children))
    case ListAt(_, children) => ListTree(Meanings(children))
  }

  ghost function Meanings(ls: seq<Layout>): (ts: seq<Tree>)
    ensures |ts| == |ls| && forall i :: 0 <= i < |ls| ==> ts[i] == Meaning(ls[i])
  {
    if ls == [] then [] else [Meaning(ls[0])] + Meanings(ls[1..])
  }

  /** The nodes of a layout, as often as they occur in it. */
  ghost function Cells(l: Layout): multiset<nat> {
    match l
    case Hole => multiset{}
    case LeafAt(a, _) => multiset{a}
    case ObjectAt(a, _, children) => multiset{a} + CellsOf(children)
    case ListAt(a, children) => multiset{a} + CellsOf(children)
  }

  ghost function CellsOf(ls: seq<Layout>): multiset<nat> {
    if ls == [] then multiset{} else Cells(ls[0]) + CellsOf(ls[1..])
  }

  /** Memory holds the layout. */
  ghost predicate At(nodes: Memory, l: Layout) {
    match l
    case Hole => true
    case LeafAt(a, s) =>
      a in nodes && nodes[a].kind == ScalarKind && nodes[a].scalar == s && nodes[a].count == 0 && nodes[a].length == 0
    case ObjectAt(a, names, children) =>
      && a in nodes && ObjectNode(nodes[a], names, children)
      && forall i :: 0 <= i < |children| ==> At(nodes, children[i])
    case ListAt(a, children) =>
      && a in nodes && ListNode(nodes[a], children)
      && forall i :: 0 <= i < |children| ==> At(nodes, children[i])
  }

  ghost predicate ObjectNode(n: Node, names: seq<string>, children: seq<Layout>) {
    && n.kind == ObjectKind && n.scalar == NoScalar && n.length == 0
    && n.count == |names| == |children| <= |n.values| && n.count <= |n.names|
    && forall i :: 0 <= i < |children| ==> n.names[i] == Some(names[i]) && n.values[i] == Address(children[i])
  }

  ghost predicate ListNode(n: Node, children: seq<Layout>) {
    && n.kind == ListKind && n.scalar == NoScalar && n.count == 0
    && n.length == |children| <= |n.items|
    && forall i :: 0 <= i < |children| ==> n.items[i] == Address(children[i])
  }

  /** Every list slot at or past the length is null. */
  ghost predicate Tidy(n: Node) {
    && n.count <= |n.names| == |n.values| && n.length <= |n.items|
    && forall i :: n.length <= i < |n.items| ==> n.items[i] == None
  }

  /** A released node looks like a new one but for its kind and its arrays. */
  ghost predicate Blank(n: Node) {
    Tidy(n) && n.count == 0 && n.length == 0 && n.scalar == NoScalar
  }

  /** The nodes of `cells` are as they were. */
  ghost predicate Unchanged(nodes: Memory, nodes': Memory, cells: multiset<nat>) {
    forall a :: a in cells && a in nodes ==> a in nodes' && nodes'[a] == nodes[a]
  }

  lemma {:induction false} AtUnchanged(nodes: Memory, nodes': Memory, l: Layout)
    requires At(nodes, l) && Unchanged(nodes, nodes', Cells(l))
    ensures At(nodes', l)
    decreases l
  {
    match l
    case Hole =>
    case LeafAt(a, _) =>
    case ObjectAt(a, _, children) => AllAtUnchanged(nodes, nodes', children);
    case ListAt(a, children) => AllAtUnchanged(nodes, nodes', children);
  }

  ghost predicate AllAt(nodes: Memory, ls: seq<Layout>) {
    forall i :: 0 <= i < |ls| ==> At(nodes, ls[i])
  }

  lemma {:induction false} AllAtUnchanged(nodes: Memory, nodes': Memory, ls: seq<Layout>)
    requires AllAt(nodes, ls) && Unchanged(nodes, nodes', CellsOf(ls))
    ensures AllAt(nodes', ls)
    decreases ls
  {
    forall i | 0 <= i < |ls| ensures At(nodes', ls[i]) {
      CellsAt(ls, i);
      AtUnchanged(nodes, nodes', ls[i]);
    }
  }

  lemma {:induction false} CellsAt(ls: seq<Layout>, i: nat)
    requires i < |ls|
    ensures CellsOf(ls) == CellsOf(ls[..i]) + Cells(ls[i]) + CellsOf(ls[i + 1..])
  {
    if i > 0 {
      CellsAt(ls[1..], i - 1);
      assert ls[1..][..i - 1] == ls[..i][1..] && ls[1..][i..] == ls[i + 1..];
    }
  }

  lemma {:induction false} CellsConcat(xs: seq<Layout>, ys: seq<Layout>)
    ensures CellsOf(xs + ys) == CellsOf(xs) + CellsOf(ys)
  {
    if xs == [] {
      assert xs + ys == ys;
    } else {
      assert (xs + ys)[1..] == xs[1..] + ys;
      CellsConcat(xs[1..], ys);
    }
  }

  // ----- The free list -----

  ghost predicate Chain(nodes: Memory, head: Option<nat>, pool: set<nat>)
    decreases |pool|
  {
    if pool == {} then head.None?
    else
      && head.Some? && head.value in pool && head.value in nodes
      && Chain(nodes, nodes[head.value].next, pool - {head.value})
  }

  lemma {:induction false} ChainUnchanged(nodes: Memory, nodes': Memory, head: Option<nat>, pool: set<nat>)
    requires Chain(nodes, head, pool)
    requires forall a :: a in pool ==> a in nodes' && (a in nodes ==> nodes'[a] == nodes[a])
    ensures Chain(nodes', head, pool)
    decreases |pool|
  {
    if pool != {} {
      ChainUnchanged(nodes, nodes', nodes[head.value].next, pool - {head.value});
    }
  }

  /** Memory is the free list and the given cells: every node is on the free list,
      or occurs in the cells, once and not both. */
  ghost predicate Accounted(nodes: Memory, head: Option<nat>, pool: set<nat>, cells: multiset<nat>) {
    && multiset(pool) + cells == multiset(nodes.Keys)
    && Chain(nodes, head, pool)
    && (forall a :: a in pool && a in nodes ==> Blank(nodes[a]))
    && forall a :: a in nodes ==> Tidy(nodes[a])
  }

  lemma CellsAreNodes(nodes: Memory, pool: set<nat>, cells: multiset<nat>, a: nat)
    requires multiset(pool) + cells == multiset(nodes.Keys)
    ensures a in cells <==> a in nodes && a !in pool
    ensures cells[a] <= 1
  {
    assert (multiset(pool) + cells)[a] == multiset(nodes.Keys)[a];
  }

  lemma PoolIsNodes(nodes: Memory, pool: set<nat>, cells: multiset<nat>, a: nat)
    requires multiset(pool) + cells == multiset(nodes.Keys) && a in pool
    ensures a in nodes && a !in cells
  {
    assert (multiset(pool) + cells)[a] == multiset(nodes.Keys)[a];
  }

  /** Updating a cell leaves memory accounted for. */
  lemma AccountedUpdate(nodes: Memory, head: Option<nat>, pool: set<nat>, cells: multiset<nat>, a: nat, n: Node)
    requires Accounted(nodes, head, pool, cells) && a in cells && Tidy(n)
    ensures a in nodes && Accounted(nodes[a := n], head, pool, cells)
    ensures forall rest :: rest + multiset{a} <= cells ==> Unchanged(nodes, nodes[a := n], rest)
  {
    CellsAreNodes(nodes, pool, cells, a);
    assert nodes[a := n].Keys == nodes.Keys;
    forall b | b in pool ensures b in nodes && b != a {
      PoolIsNodes(nodes, pool, cells, b);
    }
    ChainUnchanged(nodes, nodes[a := n], head, pool);
    forall rest: multiset<nat> | rest + multiset{a} <= cells ensures Unchanged(nodes, nodes[a := n], rest) {
      forall b | b in rest ensures b in nodes && b != a {
        CellsAreNodes(nodes, pool, cells, b);
        assert b == a ==> (rest + multiset{a})[a] >= 2;
      }
    }
  }

  /** A node comes off the free list. */
  lemma AccountedTake(nodes: Memory, head: Option<nat>, pool: set<nat>, cells: multiset<nat>, kind: Kind)
    requires Accounted(nodes, head, pool, cells) && head.Some?
    ensures head.value in pool && head.value in nodes && head.value !in cells
    ensures var nodes' := nodes[head.value := nodes[head.value].(next := None, kind := kind)];
            && Accounted(nodes', nodes[head.value].next, pool - {head.value}, cells + multiset{head.value})
            && Blank(nodes'[head.value]) && Unchanged(nodes, nodes', cells)
  {
    var a := head.value;
    var nodes' := nodes[a := nodes[a].(next := None, kind := kind)];
    PoolIsNodes(nodes, pool, cells, a);
    assert nodes'.Keys == nodes.Keys;
    assert multiset(pool) == multiset(pool - {a}) + multiset{a};
    forall b | b in pool ensures b in nodes { PoolIsNodes(nodes, pool, cells, b); }
    ChainUnchanged(nodes, nodes', nodes[a].next, pool - {a});
    forall b | b in cells ensures b in nodes && b != a { CellsAreNodes(nodes, pool, cells, b); }
  }

  /** A new node joins memory. */
  lemma AccountedAllocate(nodes: Memory, head: Option<nat>, pool: set<nat>, cells: multiset<nat>, a: nat, n: Node)
    requires Accounted(nodes, head, pool, cells) && a !in nodes && Blank(n)
    ensures a !in cells && Accounted(nodes[a := n], head, pool, cells + multiset{a})
            && Unchanged(nodes, nodes[a := n], cells)
  {
    CellsAreNodes(nodes, pool, cells, a);
    assert nodes[a := n].Keys == nodes.Keys + {a};
    assert multiset(nodes[a := n].Keys) == multiset(nodes.Keys) + multiset{a};
    forall b | b in pool ensures b in nodes { PoolIsNodes(nodes, pool, cells, b); }
    ChainUnchanged(nodes, nodes[a := n], head, pool);
    forall b | b in cells ensures b in nodes { CellsAreNodes(nodes, pool, cells, b); }
  }

  /** A cell goes on the free list. */
  lemma AccountedPut(nodes: Memory, head: Option<nat>, pool: set<nat>, cells: multiset<nat>, a: nat)
    requires Accounted(nodes, head, pool, cells + multiset{a}) && a in nodes && Blank(nodes[a])
    ensures a !in pool
    ensures var nodes' := nodes[a := nodes[a].(next := head)];
            Accounted(nodes', Some(a), pool + {a}, cells) && Unchanged(nodes, nodes', cells)
  {
    var nodes' := nodes[a := nodes[a].(next := head)];
    CellsAreNodes(nodes, pool, cells + multiset{a}, a);
    assert nodes'.Keys == nodes.Keys;
    assert multiset(pool + {a}) == multiset(pool) + multiset{a};
    forall b | b in pool ensures b in nodes { PoolIsNodes(nodes, pool, cells + multiset{a}, b); }
    ChainUnchanged(nodes, nodes', head, pool);
    assert pool + {a} - {a} == pool;
    assert Chain(nodes', Some(a), pool + {a});
    forall b | b in cells ensures b in nodes && b != a { OtherCell(nodes, pool, cells, a, b); }
  }

  lemma OtherCell(nodes: Memory, pool: set<nat>, cells: multiset<nat>, a: nat, b: nat)
    requires multiset(pool) + (cells + multiset{a}) == multiset(nodes.Keys) && b in cells
    ensures b in nodes && b != a && b !in pool
  {
    CellsAreNodes(nodes, pool, cells + multiset{a}, b);
    assert b == a ==> (cells + multiset{a})[a] >= 2;
  }

  /** A cell is freed. */
  lemma AccountedFree(nodes: Memory, head: Option<nat>, pool: set<nat>, cells: multiset<nat>, a: nat)
    requires Accounted(nodes, head, pool, cells + multiset{a})
    ensures Accounted(nodes - {a}, head, pool, cells) && Unchanged(nodes, nodes - {a}, cells)
  {
    CellsAreNodes(nodes, pool, cells + multiset{a}, a);
    assert (nodes - {a}).Keys == nodes.Keys - {a};
    assert multiset(nodes.Keys) == multiset(nodes.Keys - {a}) + multiset{a};
    assert multiset(pool) + (cells + multiset{a}) - multiset{a} == multiset(pool) + cells;
    forall b | b in pool ensures b in nodes && b != a { PoolIsNodes(nodes, pool, cells + multiset{a}, b); }
    ChainUnchanged(nodes, nodes - {a}, head, pool);
    forall b | b in cells ensures b in nodes && b != a { OtherCell(nodes, pool, cells, a, b); }
  }

  // ----- The heap -----

  /** An array enlarged; what the new slots hold is not specified. */
  method Renew<T(0)>(slots: seq<Option<T>>, capacity: nat) returns (r: seq<Option<T>>)
    requires |slots| <= capacity
    ensures |r| == capacity && r[..|slots|] == slots
  {
    r := slots + seq(capacity - |slots|, i => None);
  }

  class NodeHeap {
    var nodes: Memory
    var head: Option<nat>
    var poolCount: nat
    var next: nat
    ghost var pool: set<nat>

    constructor ()
      ensures Valid(multiset{})
    {
      nodes, head, poolCount, next, pool := map[], None, 0, 0, {};
    }

    /** Memory is the free list, within its cap and of the counted length, and `cells`. */
    ghost predicate Valid(cells: multiset<nat>)
      reads this
    {
      && Accounted(nodes, head, pool, cells)
      && poolCount == |pool| <= 4096
      && forall a :: a in nodes ==> a < next
    }

    /** A node of the given kind: a released one, or a new one. Either looks empty. */
    method Get(kind: Kind, ghost cells: multiset<nat>) returns (a: nat)
      requires Valid(cells)
      modifies this
      ensures Valid(cells + multiset{a}) && a !in cells && Unchanged(old(nodes), nodes, cells)
      ensures a in nodes && nodes[a].kind == kind && Blank(nodes[a])
      ensures if old(pool) == {} then a !in old(nodes) && pool == {}
              else old(head) == Some(a) && pool == old(pool) - {a}
    {
      ghost var pool0 := pool;
      if head.Some? {
        AccountedTake(nodes, head, pool, cells, kind);
        a := head.value;
        head := nodes[a].next;
        poolCount := poolCount - 1;
        pool := pool - {a};
        assert |pool0| == |pool| + 1;
        nodes := nodes[a := nodes[a].(next := None, kind := kind)];
      } else {
        a := next;
        AccountedAllocate(nodes, head, pool, cells, a, Node(kind, NoScalar, [], [], 0, [], 0, None));
        next := next + 1;
        nodes := nodes[a := Node(kind, NoScalar, [], [], 0, [], 0, None)];
      }
    }

    /** Writes a node. */
    method Write(a: nat, n: Node, ghost cells: multiset<nat>)
      requires Valid(cells + multiset{a}) && Tidy(n)
      modifies this`nodes
      ensures Valid(cells + multiset{a}) && Unchanged(old(nodes), nodes, cells) && a in nodes && nodes[a] == n
    {
      AccountedUpdate(nodes, head, pool, cells + multiset{a}, a, n);
      nodes := nodes[a := n];
    }

    /** Releases a blank node. */
    method Put(a: nat, ghost cells: multiset<nat>)
      requires Valid(cells + multiset{a}) && a in nodes && Blank(nodes[a])
      modifies this`nodes, this`head, this`poolCount, this`pool
      ensures Valid(cells) && Unchanged(old(nodes), nodes, cells)
      ensures pool == old(pool) + (if |old(pool)| < 4096 then {a} else {})
    {
      if poolCount < POOL_MAX {
        AccountedPut(nodes, head, pool, cells, a);
        assert |pool + {a}| == |pool| + 1;
        nodes := nodes[a := nodes[a].(next := head)];
        head := Some(a);
        poolCount := poolCount + 1;
        pool := pool + {a};
      } else {
        AccountedFree(nodes, head, pool, cells, a);
        nodes := nodes - {a};
      }
    }

    // ----- Building -----

    method NewScalar(s: Scalar, ghost rest: multiset<nat>) returns (a: nat)
      requires Valid(rest)
      modifies this
      ensures Valid(rest + Cells(LeafAt(a, s))) && Unchanged(old(nodes), nodes, rest)
      ensures At(nodes, LeafAt(a, s))
    {
      a := Get(ScalarKind, rest);
      Write(a, nodes[a].(scalar := s), rest);
    }

    method NewObject(ghost rest: multiset<nat>) returns (a: nat)
      requires Valid(rest)
      modifies this
      ensures Valid(rest + Cells(ObjectAt(a, [], []))) && Unchanged(old(nodes), nodes, rest)
      ensures At(nodes, ObjectAt(a, [], []))
    {
      a := Get(ObjectKind, rest);
    }

    method NewList(ghost rest: multiset<nat>) returns (a: nat)
      requires Valid(rest)
      modifies this
      ensures Valid(rest + Cells(ListAt(a, []))) && Unchanged(old(nodes), nodes, rest)
      ensures At(nodes, ListAt(a, []))
    {
      a := Get(ListKind, rest);
    }

    /** Appends a named child to an object; anything else is left alone. */
    method ObjectStore(value: Option<nat>, name: Option<string>, child: Option<nat>,
                       ghost l: Layout, ghost c: Layout, ghost rest: multiset<nat>)
      requires Valid(Cells(l) + Cells(c) + rest) && At(nodes, l) && At(nodes, c)
      requires value == Address(l) && child == Address(c)
      modifies this`nodes
      ensures Valid(Cells(l) + Cells(c) + rest) && Unchanged(old(nodes), nodes, rest)
      ensures At(nodes,
                 if StoresInObject(l, name, c) then ObjectAt(l.at, l.names + [name.value], l.children + [c]) else l)
      ensures At(nodes, c)
      ensures !StoresInObject(l, name, c) ==> nodes == old(nodes)
    {
      if value.None? || nodes[value.value].kind != ObjectKind || name.None? || child.None? {
        return;
      }
      AppendEntry(value.value, name, child, l, c, rest);
    }

    method AppendEntry(a: nat, name: Option<string>, child: Option<nat>, ghost l: Layout, ghost c: Layout,
                       ghost rest: multiset<nat>)
      requires Valid(Cells(l) + Cells(c) + rest) && At(nodes, l) && At(nodes, c)
      requires StoresInObject(l, name, c) && a == l.at && child == Address(c)
      modifies this`nodes
      ensures Valid(Cells(l) + Cells(c) + rest) && Unchanged(old(nodes), nodes, rest)
      ensures At(nodes, ObjectAt(l.at, l.names + [name.value], l.children + [c])) && At(nodes, c)
    {
      ghost var others, nodes0 := CellsOf(l.children) + Cells(c) + rest, nodes;
      assert Cells(l) + Cells(c) + rest == others + multiset{a};
      AccountedCells(others + multiset{a}, a);
      var n := Roomy(nodes[a]);
      n := n.(names := n.names[n.count := name], values := n.values[n.count := child], count := n.count + 1);
      EntryAppended(nodes[a], n, l.names, l.children, name.value, c);
      Write(a, n, others);
      StoredInObject(nodes0, nodes, l, name.value, c);
    }

    lemma AccountedCells(cells: multiset<nat>, a: nat)
      requires Valid(cells) && a in cells
      ensures a in nodes && Tidy(nodes[a])
    {
      CellsAreNodes(nodes, pool, cells, a);
    }

    /** Appends a child to a list; anything else is left alone. */
    method ListPush(value: Option<nat>, child: Option<nat>, ghost l: Layout, ghost c: Layout, ghost rest: multiset<nat>)
      requires Valid(Cells(l) + Cells(c) + rest) && At(nodes, l) && At(nodes, c)
      requires value == Address(l) && child == Address(c)
      modifies this`nodes
      ensures Valid(Cells(l) + Cells(c) + rest) && Unchanged(old(nodes), nodes, rest)
      ensures At(nodes, if l.ListAt? && !c.Hole? then ListAt(l.at, l.children + [c]) else l)
      ensures At(nodes, c)
      ensures !(l.ListAt? && !c.Hole?) ==> nodes == old(nodes)
    {
      if value.None? || nodes[value.value].kind != ListKind || child.None? {
        return;
      }
      AppendItem(value.value, child, l, c, rest);
    }

    method AppendItem(a: nat, child: Option<nat>, ghost l: Layout, ghost c: Layout, ghost rest: multiset<nat>)
      requires Valid(Cells(l) + Cells(c) + rest) && At(nodes, l) && At(nodes, c)
      requires l.ListAt? && !c.Hole? && a == l.at && child == Address(c)
      modifies this`nodes
      ensures Valid(Cells(l) + Cells(c) + rest) && Unchanged(old(nodes), nodes, rest)
      ensures At(nodes, ListAt(l.at, l.children + [c])) && At(nodes, c)
    {
      ghost var others, nodes0 := CellsOf(l.children) + Cells(c) + rest, nodes;
      assert Cells(l) + Cells(c) + rest == others + multiset{a};
      AccountedCells(others + multiset{a}, a);
      var n := nodes[a];
      if n.length == |n.items| {
        n := n.(items := Widened(n.items, if |n.items| > 0 then |n.items| * 2 else 8));
      }
      n := n.(items := n.items[n.length := child], length := n.length + 1);
      ItemAppended(nodes[a], n, l.children, c);
      Write(a, n, others);
      StoredInList(nodes0, nodes, l.at, l.children, c, l.children + [c]);
    }

    /** Puts a child at any position of a list: what was there is destroyed, and a
        gap before it is filled with holes. */
    method ListStoreAt(value: Option<nat>, index: int, child: Option<nat>, ghost l: Layout, ghost c: Layout,
                       ghost rest: multiset<nat>)
      returns (ghost after: Layout)
      requires Valid(Cells(l) + Cells(c) + rest) && At(nodes, l) && At(nodes, c)
      requires value == Address(l) && child == Address(c)
      modifies this
      ensures At(nodes, after) && Unchanged(old(nodes), nodes, rest)
      ensures if l.ListAt? && index >= 0 && !c.Hole?
              then after == ListAt(l.at, StoredAt(l.children, index, c)) && Valid(Cells(after) + rest)
              else after == l && nodes == old(nodes) && Valid(Cells(l) + Cells(c) + rest)
    {
      after := l;
      if value.None? || nodes[value.value].kind != ListKind || index < 0 || child.None? {
        return;
      }
      after := ListAt(l.at, StoredAt(l.children, index, c));
      assert Cells(l) + Cells(c) + rest == Cells(l) + (Cells(c) + rest);
      ghost var before := nodes;
      MakeRoom(value.value, index, l, Cells(c) + rest);
      AtUnchanged(before, nodes, c);
      Replace(value.value, index, child, l, c, rest);
    }

    /** Doubles the capacity of a list until it has a slot for `index`. */
    method MakeRoom(a: nat, index: nat, ghost l: Layout, ghost rest: multiset<nat>)
      requires l.ListAt? && l.at == a && Valid(Cells(l) + rest) && At(nodes, l)
      modifies this`nodes
      ensures Valid(Cells(l) + rest) && At(nodes, l) && Unchanged(old(nodes), nodes, rest)
      ensures index < |nodes[a].items|
    {
      ghost var nodes0 := nodes;
      ghost var others := CellsOf(l.children) + rest;
      assert Cells(l) + rest == others + multiset{a};
      AccountedCells(others + multiset{a}, a);
      if index >= |nodes[a].items| {
        var capacity := if |nodes[a].items| > 0 then |nodes[a].items| else 8;
        while index >= capacity
          invariant capacity >= |nodes[a].items| && capacity > 0
          decreases index - capacity
        {
          capacity := capacity * 2;
        }
        Write(a, nodes[a].(items := Widened(nodes[a].items, capacity)), others);
        AllAtUnchanged(nodes0, nodes, l.children);
      }
    }

    method Replace(a: nat, index: nat, child: Option<nat>, ghost l: Layout, ghost c: Layout, ghost rest: multiset<nat>)
      requires Valid(Cells(l) + (Cells(c) + rest)) && At(nodes, l) && At(nodes, c)
      requires l.ListAt? && a == l.at && !c.Hole? && child == Address(c) && index < |nodes[a].items|
      modifies this
      ensures At(nodes, ListAt(a, StoredAt(l.children, index, c))) && Unchanged(old(nodes), nodes, rest)
      ensures Valid(Cells(ListAt(a, StoredAt(l.children, index, c))) + rest)
    {
      ghost var kept, nodes0 := Without(l.children, index), nodes;
      Vacate(a, index, l, Cells(c) + rest);
      Ungroup(CellsOf(kept), Cells(c), rest);
      AllAtUnchanged(nodes0, nodes, kept);
      AtUnchanged(nodes0, nodes, c);
      Occupy(a, index, child, l.children, c, rest);
    }

    /** Points the slot at `index` to a child. */
    method Occupy(a: nat, index: nat, child: Option<nat>, ghost children: seq<Layout>, ghost c: Layout,
                  ghost rest: multiset<nat>)
      requires Valid(CellsOf(Without(children, index)) + Cells(c) + rest + multiset{a})
      requires AllAt(nodes, Without(children, index)) && At(nodes, c) && child == Address(c)
      requires a in nodes && ListNode(nodes[a], children) && Tidy(nodes[a]) && index < |nodes[a].items|
      modifies this`nodes
      ensures At(nodes, ListAt(a, StoredAt(children, index, c))) && Unchanged(old(nodes), nodes, rest)
      ensures Valid(Cells(ListAt(a, StoredAt(children, index, c))) + rest)
    {
      ghost var others := CellsOf(Without(children, index)) + Cells(c) + rest;
      ghost var nodes0 := nodes;
      var n := nodes[a];
      n := n.(items := n.items[index := child], length := if index >= n.length then index + 1 else n.length);
      ItemStored(nodes0[a], n, children, index, c);
      Write(a, n, others);
      StoredMembers(children, index, c);
      StoredInList(nodes0, nodes, a, Without(children, index), c, StoredAt(children, index, c));
      StoredCells(children, index, c);
      assert Cells(ListAt(a, StoredAt(children, index, c))) + rest == others + multiset{a};
    }

    /** Destroys the item at `index`, if there is one, leaving its slot for a new one. */
    method Vacate(a: nat, index: nat, ghost l: Layout, ghost rest: multiset<nat>)
      requires Valid(Cells(l) + rest) && At(nodes, l) && l.ListAt? && a == l.at && index < |nodes[a].items|
      modifies this
      ensures Valid(CellsOf(Without(l.children, index)) + rest + multiset{a})
      ensures Unchanged(old(nodes), nodes, CellsOf(Without(l.children, index)) + rest)
      ensures a in nodes && nodes[a] == old(nodes)[a] && Tidy(nodes[a])
    {
      ghost var gone := if index < |l.children| then l.children[index] else Hole;
      ghost var others := CellsOf(Without(l.children, index)) + rest + multiset{a};
      WithoutCells(l.children, index);
      assert Cells(l) + rest == CellsOf(l.children) + rest + multiset{a};
      Regroup(Cells(gone), CellsOf(Without(l.children, index)), rest, multiset{a});
      AccountedCells(Cells(l) + rest, a);
      assert nodes[a].items[index] == Address(gone);
      if nodes[a].items[index].Some? {
        Destroy(nodes[a].items[index], gone, others);
      } else {
        assert Cells(gone) + others == others;
      }
      AccountedCells(others, a);
    }

    // ----- Destroying -----

    /** Releases every node of a value; what else is in memory stays as it is. */
    method Destroy(value: Option<nat>, ghost l: Layout, ghost rest: multiset<nat>)
      requires Valid(Cells(l) + rest) && At(nodes, l) && value == Address(l)
      modifies this
      ensures Valid(rest) && Unchanged(old(nodes), nodes, rest)
      decreases l, 3
    {
      if value.None? {
        assert Cells(l) + rest == rest;
        return;
      }
      var a := value.value;
      ghost var children := if l.LeafAt? then [] else l.children;
      assert Cells(l) + rest == CellsOf(children) + rest + multiset{a};
      match nodes[a].kind {
        case ScalarKind =>
          assert CellsOf(children) + rest + multiset{a} == rest + multiset{a};
        case ObjectKind =>
          DestroyEntries(a, l, rest);
        case ListKind =>
          DestroyItems(a, l, rest);
      }
      Write(a, nodes[a].(scalar := NoScalar), rest);
      Put(a, rest);
    }

    /** Destroys a child of the node at `a`, which still points to it. */
    method DestroyChild(value: Option<nat>, a: nat, i: nat, ghost l: Layout, ghost rest: multiset<nat>)
      requires (l.ObjectAt? || l.ListAt?) && i < |l.children| && value == Address(l.children[i])
      requires Valid(CellsOf(l.children[i..]) + rest + multiset{a}) && AllAt(nodes, l.children[i..]) && a in nodes
      modifies this
      ensures Valid(CellsOf(l.children[i + 1..]) + rest + multiset{a}) && AllAt(nodes, l.children[i + 1..])
      ensures Unchanged(old(nodes), nodes, rest)
      ensures a in nodes && nodes[a] == old(nodes)[a] && Tidy(nodes[a])
      decreases l, 0
    {
      ghost var others := CellsOf(l.children[i + 1..]) + rest + multiset{a};
      ghost var before := nodes;
      TailCells(l.children, i);
      Regroup(Cells(l.children[i]), CellsOf(l.children[i + 1..]), rest, multiset{a});
      TailsAt(nodes, l.children, i);
      Destroy(value, l.children[i], others);
      AllAtUnchanged(before, nodes, l.children[i + 1..]);
      AccountedCells(others, a);
    }

    method DestroyEntries(a: nat, ghost l: Layout, ghost rest: multiset<nat>)
      requires l.ObjectAt? && l.at == a && Valid(CellsOf(l.children) + rest + multiset{a}) && At(nodes, l)
      modifies this
      ensures Valid(rest + multiset{a}) && Unchanged(old(nodes), nodes, rest)
      ensures a in nodes && Blank(nodes[a])
      decreases l, 2
    {
      ghost var nodes0 := nodes;
      var count := nodes[a].count;
      for i := 0 to count
        invariant Valid(CellsOf(l.children[i..]) + rest + multiset{a}) && AllAt(nodes, l.children[i..])
        invariant Unchanged(nodes0, nodes, rest)
        invariant a in nodes && ObjectFrom(nodes[a], count, l.children, i)
      {
        DestroyEntry(a, count, i, l, rest);
      }
      assert CellsOf(l.children[count..]) + rest + multiset{a} == rest + multiset{a};
      AccountedCells(rest + multiset{a}, a);
      Write(a, nodes[a].(count := 0), rest);
    }

    method DestroyEntry(a: nat, count: nat, i: nat, ghost l: Layout, ghost rest: multiset<nat>)
      requires l.ObjectAt? && i < |l.children| && a in nodes && ObjectFrom(nodes[a], count, l.children, i)
      requires Valid(CellsOf(l.children[i..]) + rest + multiset{a}) && AllAt(nodes, l.children[i..])
      modifies this
      ensures Valid(CellsOf(l.children[i + 1..]) + rest + multiset{a}) && AllAt(nodes, l.children[i + 1..])
      ensures Unchanged(old(nodes), nodes, rest)
      ensures a in nodes && ObjectFrom(nodes[a], count, l.children, i + 1)
      decreases l, 1
    {
      ghost var others := CellsOf(l.children[i + 1..]) + rest;
      DestroyChild(nodes[a].values[i], a, i, l, rest);
      ghost var before := nodes;
      Write(a, nodes[a].(names := nodes[a].names[i := None], values := nodes[a].values[i := None]), others);
      AllAtUnchanged(before, nodes, l.children[i + 1..]);
    }

    method DestroyItems(a: nat, ghost l: Layout, ghost rest: multiset<nat>)
      requires l.ListAt? && l.at == a && Valid(CellsOf(l.children) + rest + multiset{a}) && At(nodes, l)
      modifies this
      ensures Valid(rest + multiset{a}) && Unchanged(old(nodes), nodes, rest)
      ensures a in nodes && Blank(nodes[a])
      decreases l, 2
    {
      ghost var nodes0 := nodes;
      var length := nodes[a].length;
      for i := 0 to length
        invariant Valid(CellsOf(l.children[i..]) + rest + multiset{a}) && AllAt(nodes, l.children[i..])
        invariant Unchanged(nodes0, nodes, rest)
        invariant a in nodes && ListFrom(nodes[a], length, l.children, i)
      {
        DestroyItem(a, length, i, l, rest);
      }
      assert CellsOf(l.children[length..]) + rest + multiset{a} == rest + multiset{a};
      AccountedCells(rest + multiset{a}, a);
      Write(a, nodes[a].(length := 0), rest);
    }

    method DestroyItem(a: nat, count: nat, i: nat, ghost l: Layout, ghost rest: multiset<nat>)
      requires l.ListAt? && i < |l.children| && a in nodes && ListFrom(nodes[a], count, l.children, i)
      requires Valid(CellsOf(l.children[i..]) + rest + multiset{a}) && AllAt(nodes, l.children[i..])
      modifies this
      ensures Valid(CellsOf(l.children[i + 1..]) + rest + multiset{a}) && AllAt(nodes, l.children[i + 1..])
      ensures Unchanged(old(nodes), nodes, rest)
      ensures a in nodes && ListFrom(nodes[a], count, l.children, i + 1)
      decreases l, 1
    {
      ghost var others := CellsOf(l.children[i + 1..]) + rest;
      DestroyChild(nodes[a].items[i], a, i, l, rest);
      ghost var before := nodes;
      Write(a, nodes[a].(items := nodes[a].items[i := None]), others);
      AllAtUnchanged(before, nodes, l.children[i + 1..]);
    }

    // ----- Cloning -----

    /** A deep copy with the same meaning in nodes of its own. */
    method Clone(value: Option<nat>, ghost l: Layout, ghost cells: multiset<nat>) returns (r: nat, ghost copy: Layout)
      requires Valid(cells) && Cells(l) <= cells && At(nodes, l) && value == Address(l)
      modifies this
      ensures Valid(Cells(copy) + cells) && Unchanged(old(nodes), nodes, cells)
      ensures At(nodes, copy) && Address(copy) == Some(r) && Meaning(copy) == Meaning(l)
      decreases l, 3
    {
      if value.None? {
        r, copy := CloneScalar(NoScalar, cells);
        return;
      }
      var a := value.value;
      match nodes[a].kind {
        case ScalarKind =>
          r, copy := CloneScalar(nodes[a].scalar, cells);
        case ObjectKind =>
          r, copy := CloneObject(a, l, cells);
        case ListKind =>
          r, copy := CloneList(a, l, cells);
      }
    }

    /** A copy of a scalar; empty text loses its encoding flag. */
    method CloneScalar(s: Scalar, ghost cells: multiset<nat>) returns (r: nat, ghost copy: Layout)
      requires Valid(cells)
      modifies this
      ensures Valid(Cells(copy) + cells) && Unchanged(old(nodes), nodes, cells)
      ensures At(nodes, copy) && Address(copy) == Some(r) && Meaning(copy) == Leaf(Plain(s))
    {
      var same := if s.Text? && |s.text| == 0 then Text("", false) else s;
      r := NewScalar(same, cells);
      copy := LeafAt(r, same);
      assert Cells(copy) + cells == cells + Cells(copy);
    }

    method CloneObject(a: nat, ghost l: Layout, ghost cells: multiset<nat>) returns (r: nat, ghost copy: Layout)
      requires Valid(cells) && Cells(l) <= cells && At(nodes, l) && l.ObjectAt? && l.at == a
      modifies this
      ensures Valid(Cells(copy) + cells) && Unchanged(old(nodes), nodes, cells)
      ensures At(nodes, copy) && Address(copy) == Some(r) && Meaning(copy) == Meaning(l)
      decreases l, 2
    {
      ghost var nodes0 := nodes;
      r := NewObject(cells);
      copy := ObjectAt(r, [], []);
      assert Cells(copy) + cells == cells + Cells(copy);
      AtUnchanged(nodes0, nodes, l);
      var count := nodes[a].count;
      for i := 0 to count
        invariant Valid(Cells(copy) + cells) && At(nodes, copy) && At(nodes, l) && Unchanged(nodes0, nodes, cells)
        invariant copy.ObjectAt? && copy.at == r && copy.names == l.names[..i]
                  && Meanings(copy.children) == Meanings(l.children)[..i]
      {
        copy := CloneEntry(a, r, i, l, copy, cells);
      }
      assert l.names[..count] == l.names && Meanings(l.children)[..count] == Meanings(l.children);
    }

    /** Adds a copy of the next entry to the copy so far. */
    method CloneEntry(a: nat, r: nat, i: nat, ghost l: Layout, ghost copy: Layout, ghost cells: multiset<nat>)
      returns (ghost grown: Layout)
      requires Valid(Cells(copy) + cells) && Cells(l) <= cells && At(nodes, copy) && At(nodes, l)
      requires l.ObjectAt? && l.at == a && i < |l.children|
      requires copy.ObjectAt? && copy.at == r && copy.names == l.names[..i]
               && Meanings(copy.children) == Meanings(l.children)[..i]
      modifies this
      ensures Valid(Cells(grown) + cells) && At(nodes, grown) && At(nodes, l) && Unchanged(old(nodes), nodes, cells)
      ensures grown.ObjectAt? && grown.at == r && grown.names == l.names[..i + 1]
              && Meanings(grown.children) == Meanings(l.children)[..i + 1]
      decreases l, 1
    {
      var child;
      ghost var c;
      child, c := CloneChild(nodes[a].values[i], i, l, copy, cells);
      ghost var between := nodes;
      EntryNamed(nodes, l, i);
      grown := Transfer(Some(r), nodes[a].names[i], Some(child), copy, c, cells);
      AtUnchanged(between, nodes, l);
      CopyGrows(l.children, copy.children, c, i);
    }

    method CloneList(a: nat, ghost l: Layout, ghost cells: multiset<nat>) returns (r: nat, ghost copy: Layout)
      requires Valid(cells) && Cells(l) <= cells && At(nodes, l) && l.ListAt? && l.at == a
      modifies this
      ensures Valid(Cells(copy) + cells) && Unchanged(old(nodes), nodes, cells)
      ensures At(nodes, copy) && Address(copy) == Some(r) && Meaning(copy) == Meaning(l)
      decreases l, 2
    {
      ghost var nodes0 := nodes;
      r := NewList(cells);
      copy := ListAt(r, []);
      assert Cells(copy) + cells == cells + Cells(copy);
      AtUnchanged(nodes0, nodes, l);
      var length := nodes[a].length;
      for i := 0 to length
        invariant Valid(Cells(copy) + cells) && At(nodes, copy) && At(nodes, l) && Unchanged(nodes0, nodes, cells)
        invariant copy.ListAt? && copy.at == r && Meanings(copy.children) == Meanings(l.children)[..i]
      {
        copy := CloneItem(a, r, i, l, copy, cells);
      }
      assert Meanings(l.children)[..length] == Meanings(l.children);
    }

    /** Adds a copy of the next item to the copy so far. */
    method CloneItem(a: nat, r: nat, i: nat, ghost l: Layout, ghost copy: Layout, ghost cells: multiset<nat>)
      returns (ghost grown: Layout)
      requires Valid(Cells(copy) + cells) && Cells(l) <= cells && At(nodes, copy) && At(nodes, l)
      requires l.ListAt? && l.at == a && i < |l.children|
      requires copy.ListAt? && copy.at == r && Meanings(copy.children) == Meanings(l.children)[..i]
      modifies this
      ensures Valid(Cells(grown) + cells) && At(nodes, grown) && At(nodes, l) && Unchanged(old(nodes), nodes, cells)
      ensures grown.ListAt? && grown.at == r && Meanings(grown.children) == Meanings(l.children)[..i + 1]
      decreases l, 1
    {
      var child;
      ghost var c;
      child, c := CloneChild(nodes[a].items[i], i, l, copy, cells);
      ghost var between := nodes;
      grown := PushCopy(r, child, copy, c, cells);
      AtUnchanged(between, nodes, l);
      CopyGrows(l.children, copy.children, c, i);
    }

    method PushCopy(r: nat, child: nat, ghost copy: Layout, ghost c: Layout, ghost cells: multiset<nat>)
      returns (ghost grown: Layout)
      requires Valid(Cells(copy) + Cells(c) + cells) && At(nodes, copy) && At(nodes, c)
      requires copy.ListAt? && copy.at == r && Address(c) == Some(child)
      modifies this`nodes
      ensures Valid(Cells(grown) + cells) && At(nodes, grown) && Unchanged(old(nodes), nodes, cells)
      ensures grown == ListAt(r, copy.children + [c])
    {
      ListPush(Some(r), Some(child), copy, c, cells);
      AppendedCells(r, [], copy.children, "", c);
      grown := ListAt(r, copy.children + [c]);
      assert Cells(grown) + cells == Cells(copy) + Cells(c) + cells;
    }

    method CloneChild(value: Option<nat>, i: nat, ghost l: Layout, ghost copy: Layout, ghost cells: multiset<nat>)
      returns (child: nat, ghost c: Layout)
      requires Valid(Cells(copy) + cells) && Cells(l) <= cells && At(nodes, copy) && At(nodes, l)
      requires (l.ObjectAt? || l.ListAt?) && i < |l.children| && value == Address(l.children[i])
      modifies this
      ensures Valid(Cells(copy) + Cells(c) + cells) && Unchanged(old(nodes), nodes, cells)
      ensures At(nodes, copy) && At(nodes, l) && At(nodes, c)
      ensures Address(c) == Some(child) && Meaning(c) == Meaning(l.children[i])
      decreases l, 0
    {
      ghost var before := nodes;
      ChildCells(l, l.children, i, copy, cells);
      child, c := Clone(value, l.children[i], Cells(copy) + cells);
      AtUnchanged(before, nodes, copy);
      AtUnchanged(before, nodes, l);
      assert Cells(c) + (Cells(copy) + cells) == Cells(copy) + Cells(c) + cells;
    }

    // ----- Consuming an outcome -----

    /** Stores an outcome's value in the result: moved when this is the only
        reference to the outcome, copied otherwise. The result means the same. */
    method Consume(data: Option<nat>, name: Option<string>, outcome: Outcome, ghost l: Layout, ghost v: Layout,
                   ghost rest: multiset<nat>)
      returns (ghost after: Layout, ghost remaining: Layout)
      requires Valid(Cells(l) + Cells(v) + rest) && At(nodes, l) && At(nodes, v)
      requires data == Address(l) && outcome.value == Address(v)
      modifies this, outcome`value
      ensures Valid(Cells(after) + Cells(remaining) + rest) && Unchanged(old(nodes), nodes, rest)
      ensures At(nodes, after) && At(nodes, remaining) && outcome.value == Address(remaining)
      ensures if l.ObjectAt? && name.Some?
              then after.ObjectAt? && after.at == l.at && remaining == (if outcome.refcount == 1 then Hole else v) &&
                   Meaning(after) == ObjectTree(l.names + [name.value], Meanings(l.children) + [Meaning(v)])
              else after == l && remaining == v && nodes == old(nodes)
    {
      after, remaining := l, v;
      if data.None? || nodes[data.value].kind != ObjectKind || name.None? {
        return;
      }
      if outcome.refcount == 1 && outcome.value.Some? {
        after := Transfer(data, name, outcome.value, l, v, rest);
        outcome.value := None;
        remaining := Hole;
        assert Cells(after) + Cells(remaining) + rest == Cells(after) + rest;
      } else {
        after := StoreCopy(data, name, outcome.value, l, v, rest);
      }
    }

    /** Moves a value into an object. */
    method Transfer(data: Option<nat>, name: Option<string>, value: Option<nat>, ghost l: Layout, ghost v: Layout,
                    ghost rest: multiset<nat>)
      returns (ghost after: Layout)
      requires Valid(Cells(l) + Cells(v) + rest) && At(nodes, l) && At(nodes, v)
      requires data == Address(l) && value == Address(v) && l.ObjectAt? && name.Some? && value.Some?
      modifies this`nodes
      ensures Valid(Cells(after) + rest) && Unchanged(old(nodes), nodes, rest) && At(nodes, after)
      ensures after == ObjectAt(l.at, l.names + [name.value], l.children + [v])
      ensures Meaning(after) == ObjectTree(l.names + [name.value], Meanings(l.children) + [Meaning(v)])
    {
      ObjectStore(data, name, value, l, v, rest);
      after := ObjectAt(l.at, l.names + [name.value], l.children + [v]);
      AppendedCells(l.at, l.names, l.children, name.value, v);
      assert Cells(after) == Cells(l) + Cells(v);
    }

    /** Puts a copy of a value into an object. */
    method StoreCopy(data: Option<nat>, name: Option<string>, value: Option<nat>, ghost l: Layout, ghost v: Layout,
                     ghost rest: multiset<nat>)
      returns (ghost after: Layout)
      requires Valid(Cells(l) + Cells(v) + rest) && At(nodes, l) && At(nodes, v)
      requires data == Address(l) && value == Address(v) && l.ObjectAt? && name.Some?
      modifies this
      ensures Valid(Cells(after) + Cells(v) + rest) && Unchanged(old(nodes), nodes, rest) && At(nodes, after)
              && At(nodes, v)
      ensures after.ObjectAt? && after.at == l.at
      ensures Meaning(after) == ObjectTree(l.names + [name.value], Meanings(l.children) + [Meaning(v)])
    {
      ghost var before := nodes;
      var child;
      ghost var c;
      child, c := Clone(value, v, Cells(l) + Cells(v) + rest);
      AtUnchanged(before, nodes, l);
      AtUnchanged(before, nodes, v);
      Exchange(Cells(c), Cells(l), Cells(v), rest);
      ghost var between := nodes;
      after := Transfer(data, name, Some(child), l, c, Cells(v) + rest);
      AtUnchanged(between, nodes, v);
      Ungroup(Cells(after), Cells(v), rest);
    }

    /** Gives up a reference to an outcome; with the last one its value goes too. */
    method ReleaseOutcome(outcome: Outcome, ghost v: Layout, ghost rest: multiset<nat>)
      requires Valid(Cells(v) + rest) && At(nodes, v) && outcome.value == Address(v) && outcome.refcount > 0
      modifies this, outcome`refcount
      ensures Unchanged(old(nodes), nodes, rest)
      ensures if old(outcome.refcount) > 1
              then outcome.refcount == old(outcome.refcount) - 1 && nodes == old(nodes) && Valid(Cells(v) + rest)
              else Valid(rest)
    {
      if outcome.refcount > 1 {
        outcome.refcount := outcome.refcount - 1;
        return;
      }
      Destroy(outcome.value, v, rest);
    }
  }

  /** A completed value that several owners may share. */
  class Outcome {
    var refcount: nat
    var value: Option<nat>

    constructor (value: Option<nat>)
      ensures this.value == value && refcount == 1
    {
      this.value, refcount := value, 1;
    }
  }

  lemma AppendedCells(a: nat, names: seq<string>, children: seq<Layout>, name: string, c: Layout)
    ensures Cells(ObjectAt(a, names + [name], children + [c])) == Cells(ObjectAt(a, names, children)) + Cells(c)
    ensures Meanings(children + [c]) == Meanings(children) + [Meaning(c)]
  {
    CellsConcat(children, [c]);
    assert [c][1..] == [];
  }

  lemma ChildCells(l: Layout, children: seq<Layout>, i: nat, copy: Layout, cells: multiset<nat>)
    requires (l.ObjectAt? || l.ListAt?) && l.children == children && i < |children| && Cells(l) <= cells
    ensures Cells(children[i]) <= Cells(copy) + cells
  {
    CellsAt(children, i);
  }

  lemma EntryNamed(nodes: Memory, l: Layout, i: nat)
    requires l.ObjectAt? && At(nodes, l) && i < |l.children|
    ensures l.at in nodes && i < |l.names| && i < |nodes[l.at].names| && nodes[l.at].names[i] == Some(l.names[i])
    ensures l.names[..i] + [l.names[i]] == l.names[..i + 1]
  {
  }

  lemma CopyGrows(children: seq<Layout>, copies: seq<Layout>, c: Layout, i: nat)
    requires i < |children| && Meanings(copies) == Meanings(children)[..i] && Meaning(c) == Meaning(children[i])
    ensures |copies| == i && Meanings(copies + [c]) == Meanings(children)[..i + 1]
  {
  }

  /** An object node whose first `i` entries have been cleared. */
  ghost predicate ObjectFrom(n: Node, count: nat, children: seq<Layout>, i: nat) {
    && n.kind == ObjectKind && n.scalar == NoScalar && n.length == 0
    && n.count == count == |children| && i <= count <= |n.values| == |n.names|
    && forall j :: i <= j < count ==> n.values[j] == Address(children[j])
  }

  /** A list node whose first `i` items have been cleared. */
  ghost predicate ListFrom(n: Node, length: nat, children: seq<Layout>, i: nat) {
    && n.kind == ListKind && n.scalar == NoScalar && n.count == 0
    && n.length == length == |children| && i <= length <= |n.items|
    && (forall j :: i <= j < length ==> n.items[j] == Address(children[j]))
    && forall j :: 0 <= j < i ==> n.items[j] == None
  }

  lemma Regroup(x: multiset<nat>, y: multiset<nat>, z: multiset<nat>, w: multiset<nat>)
    ensures (x + y) + z + w == x + (y + z + w)
  {
  }

  lemma Exchange(c: multiset<nat>, l: multiset<nat>, v: multiset<nat>, rest: multiset<nat>)
    ensures c + (l + v + rest) == l + c + (v + rest)
  {
  }

  lemma Ungroup(x: multiset<nat>, y: multiset<nat>, z: multiset<nat>)
    ensures x + (y + z) == x + y + z
  {
  }

  lemma TailsAt(nodes: Memory, ls: seq<Layout>, i: nat)
    requires i < |ls| && AllAt(nodes, ls[i..])
    ensures At(nodes, ls[i]) && AllAt(nodes, ls[i + 1..])
  {
    assert At(nodes, ls[i..][0]);
    assert ls[i..][1..] == ls[i + 1..];
  }

  lemma TailCells(ls: seq<Layout>, i: nat)
    requires i < |ls|
    ensures CellsOf(ls[i..]) == Cells(ls[i]) + CellsOf(ls[i + 1..])
  {
    assert ls[i..][1..] == ls[i + 1..];
  }

  function Holes(n: nat): seq<Layout> {
    seq(n, i => Hole)
  }

  lemma {:induction false} HolesAreEmpty(n: nat)
    ensures CellsOf(Holes(n)) == multiset{}
  {
    if n > 0 {
      assert Holes(n)[1..] == Holes(n - 1);
      HolesAreEmpty(n - 1);
    }
  }

  /** A list with `c` at `index`, holes filling any gap. */
  function StoredAt(children: seq<Layout>, index: nat, c: Layout): seq<Layout> {
    if index < |children| then children[index := c] else children + Holes(index - |children|) + [c]
  }

  function Without(children: seq<Layout>, index: nat): seq<Layout> {
    if index < |children| then children[..index] + children[index + 1..] else children
  }

  lemma WithoutCells(children: seq<Layout>, index: nat)
    ensures CellsOf(children)
            == CellsOf(Without(children, index)) + (if index < |children| then Cells(children[index]) else multiset{})
  {
    if index < |children| {
      CellsAt(children, index);
      CellsConcat(children[..index], children[index + 1..]);
    }
  }

  lemma StoredCells(children: seq<Layout>, index: nat, c: Layout)
    ensures CellsOf(StoredAt(children, index, c)) == CellsOf(Without(children, index)) + Cells(c)
  {
    if index < |children| {
      var after := children[index := c];
      WithoutCells(after, index);
      assert Without(after, index) == Without(children, index);
    } else {
      HolesAreEmpty(index - |children|);
      CellsConcat(children + Holes(index - |children|), [c]);
      CellsConcat(children, Holes(index - |children|));
      assert [c][1..] == [];
    }
  }

  lemma StoredMembers(children: seq<Layout>, index: nat, c: Layout)
    ensures forall l :: l in StoredAt(children, index, c) ==> l in Without(children, index) || l == c || l == Hole
  {
    forall l | l in StoredAt(children, index, c) && l != c && l != Hole ensures l in Without(children, index) {
      var i :| 0 <= i < |StoredAt(children, index, c)| && StoredAt(children, index, c)[i] == l;
      assert i < |children| && children[i] == l && i != index;
      assert l == Without(children, index)[if i < index then i else i - 1];
    }
  }

  lemma ItemStored(n: Node, r: Node, children: seq<Layout>, index: nat, c: Layout)
    requires ListNode(n, children) && Tidy(n) && index < |n.items|
    requires r == n.(items := n.items[index := Address(c)], length := if index >= n.length then index + 1 else n.length)
    ensures ListNode(r, StoredAt(children, index, c)) && Tidy(r)
  {
  }

  /** An object node with room for an entry; what its new slots hold is not specified. */
  method Roomy(n: Node) returns (r: Node)
    requires Tidy(n)
    ensures r == n.(names := r.names, values := r.values) && Tidy(r)
    ensures r.count < |r.values| && r.names[..n.count] == n.names[..n.count]
            && r.values[..n.count] == n.values[..n.count]
  {
    r := n;
    if n.count == |n.values| {
      var capacity := if |n.values| > 0 then |n.values| * 2 else 8;
      var names := Renew(n.names, capacity);
      var values := Renew(n.values, capacity);
      r := n.(names := names, values := values);
    }
  }

  predicate StoresInObject(l: Layout, name: Option<string>, c: Layout) {
    l.ObjectAt? && name.Some? && !c.Hole?
  }

  /** List slots enlarged; the new ones are null. */
  function Widened(items: seq<Option<nat>>, capacity: nat): seq<Option<nat>>
    requires |items| <= capacity
  {
    items + seq(capacity - |items|, i => None)
  }

  lemma EntryAppended(n: Node, r: Node, names: seq<string>, children: seq<Layout>, name: string, c: Layout)
    requires ObjectNode(n, names, children)
    requires r == n.(names := r.names, values := r.values, count := n.count + 1) && n.count < |r.names|
             && n.count < |r.values|
    requires r.names[..n.count] == n.names[..n.count] && r.values[..n.count] == n.values[..n.count]
    requires r.names[n.count] == Some(name) && r.values[n.count] == Address(c)
    ensures ObjectNode(r, names + [name], children + [c])
  {
    forall i | 0 <= i < n.count ensures r.names[i] == n.names[i] && r.values[i] == n.values[i] {
      assert r.names[i] == r.names[..n.count][i] && r.values[i] == r.values[..n.count][i];
    }
  }

  lemma ItemAppended(n: Node, r: Node, children: seq<Layout>, c: Layout)
    requires ListNode(n, children)
    requires r == n.(items := r.items, length := n.length + 1) && n.length < |r.items|
    requires forall i :: 0 <= i < n.length ==> r.items[i] == n.items[i]
    requires r.items[n.length] == Address(c)
    ensures ListNode(r, children + [c])
  {
  }

  lemma StoredInList(nodes: Memory, nodes': Memory, a: nat, before: seq<Layout>, c: Layout, after: seq<Layout>)
    requires AllAt(nodes, before) && At(nodes, c)
    requires Unchanged(nodes, nodes', CellsOf(before) + Cells(c))
    requires forall l :: l in after ==> l in before || l == c || l == Hole
    requires a in nodes' && ListNode(nodes'[a], after)
    ensures At(nodes', ListAt(a, after)) && At(nodes', c)
  {
    AllAtUnchanged(nodes, nodes', before);
    AtUnchanged(nodes, nodes', c);
    forall i | 0 <= i < |after| ensures At(nodes', after[i]) {
      assert after[i] in after;
    }
  }

  lemma StoredInObject(nodes: Memory, nodes': Memory, l: Layout, name: string, c: Layout)
    requires l.ObjectAt? && At(nodes, l) && At(nodes, c)
    requires Unchanged(nodes, nodes', CellsOf(l.children) + Cells(c))
    requires l.at in nodes' && ObjectNode(nodes'[l.at], l.names + [name], l.children + [c])
    ensures At(nodes', ObjectAt(l.at, l.names + [name], l.children + [c])) && At(nodes', c)
  {
    AllAtUnchanged(nodes, nodes', l.children);
    AtUnchanged(nodes, nodes', c);
  }
}
