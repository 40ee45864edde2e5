/** What a tree in memory means, and how it grows while the parser adds nodes. */
module HeapTrees {
  import opened Json
  import opened Memory
  import opened Heaps
  import opened Trees

  ghost predicate Holds(strings: map<int, string>, r: Ref, s: string) {
    r.Ref? && r.id in strings && strings[r.id] == s
  }

  /** The tree in memory is the value. */
  ghost predicate Is(nodes: map<Ptr, Node>, strings: map<int, string>, t: Tree, v: Value)
    decreases v
  {
    && t.addr in nodes && !nodes[t.addr].reference
    && var n := nodes[t.addr];
       match v
       case Null => n.kind == Kind.Null && t.kids == []
       case False => n.kind == Kind.False && t.kids == []
       case True => n.kind == Kind.True && t.kids == []
       case Number(d) => n.kind == Kind.Number && n.valuedouble == d && t.kids == []
       case String(s) => n.kind == Kind.String && Holds(strings, t.text, s) && t.kids == []
       case Array(items) =>
         n.kind == Kind.Array && |t.kids| == |items|
         && forall i | 0 <= i < |items| :: Is(nodes, strings, t.kids[i], items[i])
       case Object(members) =>
         n.kind == Kind.Object && |t.kids| == |members|
         && forall i | 0 <= i < |members| ::
              Holds(strings, t.kids[i].name, members[i].name) && Is(nodes, strings, t.kids[i], members[i].value)
  }

  /** Two versions of a node that differ in their links only. */
  predicate SameData(a: Node, b: Node) {
    a.kind == b.kind && a.reference == b.reference && a.valuedouble == b.valuedouble
  }

  lemma {:induction false} FrameIs(m: Mem, m': Mem, t: Tree, v: Value)
    requires Is(m.nodes, m.strings, t, v)
    requires forall n <- Cells(t) | n in m.nodes :: n in m'.nodes && SameData(m.nodes[n], m'.nodes[n])
    requires forall s <- Texts(t) | s in m.strings :: s in m'.strings && m'.strings[s] == m.strings[s]
    ensures Is(m'.nodes, m'.strings, t, v)
    decreases v
  {
    match v
    case Array(items) =>
      forall i | 0 <= i < |items| ensures Is(m'.nodes, m'.strings, t.kids[i], items[i]) {
        InList(t.kids, i);
        FrameIs(m, m', t.kids[i], items[i]);
      }
    case Object(members) =>
      forall i | 0 <= i < |members|
        ensures Holds(m'.strings, t.kids[i].name, members[i].name)
        ensures Is(m'.nodes, m'.strings, t.kids[i], members[i].value)
      {
        InList(t.kids, i);
        assert RefSet(t.kids[i].name) <= Texts(t.kids[i]);
        FrameIs(m, m', t.kids[i], members[i].value);
      }
    case _ =>
  }

  // ---- lists that grow at the end ----

  lemma {:induction false} AppendTree(nodes: map<Ptr, Node>, ts: seq<Tree>, t: Tree)
    ensures CellsAll(ts + [t]) == CellsAll(ts) + Cells(t)
    ensures TextsAll(ts + [t]) == TextsAll(ts) + Texts(t)
    ensures OwnsAll(nodes, ts + [t]) <==> OwnsAll(nodes, ts) && Owns(nodes, t)
    ensures DisjointAll(ts + [t])
       <==> DisjointAll(ts) && Disjoint(t) && CellsAll(ts) !! Cells(t) && TextsAll(ts) !! Texts(t)
  {
    if ts == [] {
      assert ts + [t] == [t] && [t][1..] == [];
    } else {
      assert (ts + [t])[1..] == ts[1..] + [t];
      AppendTree(nodes, ts[1..], t);
    }
  }

  // ---- growing below a node ----

  /** A node as cJSON_New_Item leaves it, except that it may have been linked and named. */
  predicate Blank(n: Node) { n.child == Nil && n.valuestring == NoRef && !n.reference }

  /** The sides of growing below a node: the tree, its nodes, its strings, and everything else. */
  datatype Side = Below | Nodes | Strings | Rest

  ghost predicate GrownIn(side: Side, m: Mem, m': Mem, item: Ptr, t: Tree) {
    match side
    case Below => Owns(m'.nodes, t) && DisjointAll(t.kids) && RefSet(t.text) !! TextsAll(t.kids)
    case Nodes => NewCells(m, m', item, CellsAll(t.kids))
    case Strings => NewTexts(m, m', RefSet(t.text) + TextsAll(t.kids))
    case Rest => OtherNodes(m, m', item) && SamePools(m, m', item)
  }

  /** Between the two states the tree has grown below `item`: all its nodes and strings are new, apart
      from the item and its name; nothing else has changed, nothing else is new. */
  ghost predicate Grown(m: Mem, m': Mem, item: Ptr, t: Tree) {
    && item in m.live && item in m.nodes && item in m'.nodes && t.addr == item
    && KeptLinks(m.nodes[item], m'.nodes[item])
    && forall side: Side :: GrownIn(side, m, m', item, t)
  }

  lemma GrownMeans(m: Mem, m': Mem, item: Ptr, t: Tree)
    requires Grown(m, m', item, t)
    ensures Owns(m'.nodes, t) && DisjointAll(t.kids) && RefSet(t.text) !! TextsAll(t.kids)
    ensures NewCells(m, m', item, CellsAll(t.kids)) && NewTexts(m, m', RefSet(t.text) + TextsAll(t.kids))
    ensures OtherNodes(m, m', item) && SamePools(m, m', item)
  {
    assert GrownIn(Below, m, m', item, t) && GrownIn(Nodes, m, m', item, t);
    assert GrownIn(Strings, m, m', item, t) && GrownIn(Rest, m, m', item, t);
  }

  /** A list has grown below a node that owns no string. */
  lemma ListGrown(m: Mem, m': Mem, item: Ptr, ts: seq<Tree>)
    requires item in m.live && item in m.nodes && item in m'.nodes && KeptLinks(m.nodes[item], m'.nodes[item])
    requires Owns(m'.nodes, WithKids(m, item, ts)) && DisjointAll(ts)
    requires NewCells(m, m', item, CellsAll(ts)) && NewTexts(m, m', TextsAll(ts))
    requires OtherNodes(m, m', item) && SamePools(m, m', item)
    ensures Grown(m, m', item, WithKids(m, item, ts))
  {
    assert RefSet(NoRef) + TextsAll(ts) == TextsAll(ts);
  }

  lemma ListMeans(m: Mem, m': Mem, item: Ptr, ts: seq<Tree>)
    requires item in m.nodes && Grown(m, m', item, WithKids(m, item, ts))
    ensures Owns(m'.nodes, WithKids(m, item, ts)) && DisjointAll(ts)
    ensures NewCells(m, m', item, CellsAll(ts)) && NewTexts(m, m', TextsAll(ts))
    ensures OtherNodes(m, m', item) && SamePools(m, m', item)
  {
    GrownMeans(m, m', item, WithKids(m, item, ts));
    assert RefSet(NoRef) + TextsAll(ts) == TextsAll(ts);
  }

  predicate KeptLinks(a: Node, b: Node) {
    a.next == b.next && a.prev == b.prev && a.name == b.name && a.pool == b.pool
  }

  ghost predicate NewCells(m: Mem, m': Mem, item: Ptr, cells: set<Ptr>) {
    && cells !! m.live && m'.live == m.live + cells
    && forall n <- cells :: SamePool(n, item)
  }

  ghost predicate NewTexts(m: Mem, m': Mem, texts: set<int>) {
    && texts !! m.strings.Keys && m'.strings.Keys == m.strings.Keys + texts
    && forall s <- m.strings :: m'.strings[s] == m.strings[s]
  }

  ghost predicate OtherNodes(m: Mem, m': Mem, item: Ptr) {
    forall n <- m.live | n != item :: n in m.nodes && n in m'.nodes && m'.nodes[n] == m.nodes[n]
  }

  ghost predicate SamePools(m: Mem, m': Mem, item: Ptr) {
    && m'.pools.Keys == m.pools.Keys
    && forall p <- m.pools | !InPool(item, p) :: m'.pools[p] == m.pools[p]
  }

  ghost function WithKids(m: Mem, item: Ptr, kids: seq<Tree>): Tree
    requires item in m.nodes
  {
    Tree(item, NoRef, m.nodes[item].name, kids)
  }

  /** The last child of a list, which was blank, has grown to t. */
  ghost predicate LastGrew(m0: Mem, m: Mem, m': Mem, item: Ptr, ts: seq<Tree>, u: Tree, t: Tree) {
    && item in m0.nodes && u.kids == [] && u.text == NoRef
    && Grown(m0, m, item, WithKids(m0, item, ts + [u])) && Grown(m, m', u.addr, t)
  }

  /** Below the last child of a list grows a tree: then the list has grown. */
  lemma GrowLast(m0: Mem, m: Mem, m': Mem, item: Ptr, ts: seq<Tree>, u: Tree, t: Tree)
    requires LastGrew(m0, m, m', item, ts, u, t)
    ensures Grown(m0, m', item, WithKids(m0, item, ts + [t]))
    ensures forall n <- CellsAll(ts) :: n in m.live && n in m.nodes && n in m'.nodes && m'.nodes[n] == m.nodes[n]
  {
    GrowLastCells(m0, m, m', item, ts, u, t);
    GrowLastTexts(m0, m, m', item, ts, u, t);
    GrowLastOwns(m0, m, m', item, ts, u, t);
    ListGrown(m0, m', item, ts + [t]);
  }

  lemma LinkedLast(m: Mem, m': Mem, ts: seq<Tree>, u: Tree, t: Tree)
    requires Linked(m.nodes, ts + [u]) && t.addr == u.addr
    requires forall n <- CellsAll(ts) :: n in m.nodes && n in m'.nodes && m'.nodes[n] == m.nodes[n]
    requires u.addr in m.nodes && u.addr in m'.nodes
    requires m'.nodes[u.addr].next == m.nodes[u.addr].next && m'.nodes[u.addr].prev == m.nodes[u.addr].prev
    ensures Linked(m'.nodes, ts + [t])
  {
    forall i | 0 <= i < |ts| + 1 ensures LinkedAt(m'.nodes, ts + [t], i) {
      assert LinkedAt(m.nodes, ts + [u], i);
      assert Top(ts + [t], i + 1) == Top(ts + [u], i + 1) && Top(ts + [t], i - 1) == Top(ts + [u], i - 1);
      if i < |ts| {
        InList(ts, i);
      }
    }
  }

  lemma GrowLastCells(m0: Mem, m: Mem, m': Mem, item: Ptr, ts: seq<Tree>, u: Tree, t: Tree)
    requires LastGrew(m0, m, m', item, ts, u, t)
    ensures NewCells(m0, m', item, CellsAll(ts + [t])) && OtherNodes(m0, m', item) && SamePools(m0, m', item)
    ensures item != u.addr && item in m'.nodes && m'.nodes[item] == m.nodes[item]
    ensures forall n <- CellsAll(ts) :: n in m.live && n in m.nodes && n in m'.nodes && m'.nodes[n] == m.nodes[n]
    ensures CellsAll(ts) !! Cells(t)
  {
    ListMeans(m0, m, item, ts + [u]);
    GrownMeans(m, m', u.addr, t);
    AppendTree(m.nodes, ts, u);
    AppendTree(m'.nodes, ts, t);
    assert Cells(u) == {u.addr} && Cells(t) == {u.addr} + CellsAll(t.kids);
    assert u.addr in CellsAll(ts + [u]) && SamePool(u.addr, item);
  }

  lemma GrowLastTexts(m0: Mem, m: Mem, m': Mem, item: Ptr, ts: seq<Tree>, u: Tree, t: Tree)
    requires LastGrew(m0, m, m', item, ts, u, t)
    ensures NewTexts(m0, m', TextsAll(ts + [t])) && t.name == u.name && Disjoint(t) && TextsAll(ts) !! Texts(t)
  {
    ListMeans(m0, m, item, ts + [u]);
    GrownMeans(m, m', u.addr, t);
    AppendTree(m.nodes, ts, u);
    AppendTree(m'.nodes, ts, t);
    SameName(m, m', u, t);
    TextSets(u, t);
    NewTextsTwice(m0, m, m', TextsAll(ts) + RefSet(u.name), RefSet(t.text) + TextsAll(t.kids));
    Shuffle(TextsAll(ts), RefSet(u.name), RefSet(t.text), TextsAll(t.kids));
  }

  lemma Shuffle(a: set<int>, b: set<int>, c: set<int>, d: set<int>)
    ensures a + b + (c + d) == a + (c + b + d)
  {
  }

  lemma TextSets(u: Tree, t: Tree)
    requires u.kids == [] && u.text == NoRef
    ensures Texts(u) == RefSet(u.name) && Texts(t) == RefSet(t.text) + RefSet(t.name) + TextsAll(t.kids)
  {
  }

  lemma SameName(m: Mem, m': Mem, u: Tree, t: Tree)
    requires Owns(m.nodes, u) && Grown(m, m', u.addr, t)
    ensures t.name == u.name
  {
    GrownMeans(m, m', u.addr, t);
  }

  lemma NewTextsTwice(m0: Mem, m: Mem, m': Mem, a: set<int>, b: set<int>)
    requires NewTexts(m0, m, a) && NewTexts(m, m', b)
    ensures NewTexts(m0, m', a + b) && a !! b
  {
  }

  lemma GrowLastOwns(m0: Mem, m: Mem, m': Mem, item: Ptr, ts: seq<Tree>, u: Tree, t: Tree)
    requires LastGrew(m0, m, m', item, ts, u, t)
    ensures Owns(m'.nodes, WithKids(m0, item, ts + [t])) && DisjointAll(ts + [t])
  {
    ListMeans(m0, m, item, ts + [u]);
    GrownMeans(m, m', u.addr, t);
    GrowLastCells(m0, m, m', item, ts, u, t);
    GrowLastTexts(m0, m, m', item, ts, u, t);
    AppendTree(m.nodes, ts, u);
    AppendTree(m'.nodes, ts, t);
    FrameTrees(m.nodes, m'.nodes, ts);
    LinkedLast(m, m', ts, u, t);
    assert Top(ts + [t], 0) == Top(ts + [u], 0);
  }

  // ---- a new child ----

  /** New `next` and `prev` pointers do not change what a node owns. */
  lemma RelinkTree(nodes: map<Ptr, Node>, nodes': map<Ptr, Node>, t: Tree)
    requires Owns(nodes, t) && t.addr in nodes'
    requires nodes'[t.addr] == nodes[t.addr].(next := nodes'[t.addr].next, prev := nodes'[t.addr].prev)
    requires forall n <- CellsAll(t.kids) | n in nodes :: n in nodes' && nodes'[n] == nodes[n]
    ensures Owns(nodes', t)
  {
    FrameTrees(nodes, nodes', t.kids);
    FrameLinks(nodes, nodes', t.kids);
  }

  /** A new node n has been linked behind the last child, or as the first child. */
  ghost predicate LinkedBehind(m: Mem, m': Mem, item: Ptr, ts: seq<Tree>, n: Ptr) {
    && item in m.live && item in m.nodes && item in m'.nodes && n in m'.nodes
    && n != Nil && n !in m.live && SamePool(n, item) && !m.nodes[item].reference
    && m'.live == m.live + {n} && m'.strings == m.strings && SamePools(m, m', item)
    && m'.nodes[n] == ZERO.(pool := m.nodes[item].pool, prev := Top(ts, |ts| - 1))
    && (forall k <- m.live | k != item && (ts == [] || k != Top(ts, |ts| - 1)) ::
          k in m.nodes && k in m'.nodes && m'.nodes[k] == m.nodes[k])
    && if ts == [] then m'.nodes[item] == m.nodes[item].(child := n)
       else
         && m'.nodes[item] == m.nodes[item] && Top(ts, |ts| - 1) in m.nodes && Top(ts, |ts| - 1) in m'.nodes
         && m'.nodes[Top(ts, |ts| - 1)] == m.nodes[Top(ts, |ts| - 1)].(next := n)
  }

  /** cJSON_New_Item, seen as a step from m to m1, and the stores behind it. */
  lemma LinkNewItem(m: Mem, m1: Mem, m': Mem, item: Ptr, ts: seq<Tree>, n: Ptr)
    requires item in m.live && m.live <= m.nodes.Keys && m1.live <= m1.nodes.Keys && !m.nodes[item].reference
    requires n != Nil && n !in m.live && SamePool(n, item) && m1.live == m.live + {n} && m1.strings == m.strings
    requires m1.nodes[n] == ZERO.(pool := m.nodes[item].pool) && SamePools(m, m1, item)
    requires forall k <- m.live :: m1.nodes[k] == m.nodes[k]
    requires var last := Top(ts, |ts| - 1);
             && (ts == [] <==> last == Nil) && (ts != [] ==> last in m.live && last != item)
             && m' == m1.(nodes :=
                  if last == Nil then m1.nodes[item := m1.nodes[item].(child := n)]
                  else m1.nodes[last := m1.nodes[last].(next := n)][n := m1.nodes[n].(prev := last)])
    ensures LinkedBehind(m, m', item, ts, n)
  {
  }

  lemma LastChild(m0: Mem, m: Mem, item: Ptr, ts: seq<Tree>)
    requires item in m0.nodes && Grown(m0, m, item, WithKids(m0, item, ts))
    ensures var last := Top(ts, |ts| - 1);
            && (ts == [] <==> last == Nil)
            && (ts != [] ==> last in m.live && last in m.nodes && last != item)
    ensures item != Nil && item in m.live
  {
    ListMeans(m0, m, item, ts);
    if ts != [] {
      var front, last := ts[..|ts| - 1], ts[|ts| - 1];
      assert ts == front + [last];
      AppendTree(m.nodes, front, last);
      InList(ts, |ts| - 1);
    }
  }

  lemma GrowChild(m0: Mem, m: Mem, m': Mem, item: Ptr, ts: seq<Tree>, n: Ptr)
    requires item in m0.nodes && Grown(m0, m, item, WithKids(m0, item, ts)) && LinkedBehind(m, m', item, ts, n)
    ensures Grown(m0, m', item, WithKids(m0, item, ts + [Tree(n, NoRef, NoRef, [])]))
  {
    GrowChildCells(m0, m, m', item, ts, n);
    GrowChildTexts(m0, m, m', item, ts, n);
    GrowChildOwns(m0, m, m', item, ts, n);
    ListGrown(m0, m', item, ts + [Tree(n, NoRef, NoRef, [])]);
  }

  lemma GrowChildOwns(m0: Mem, m: Mem, m': Mem, item: Ptr, ts: seq<Tree>, n: Ptr)
    requires item in m0.nodes && Grown(m0, m, item, WithKids(m0, item, ts)) && LinkedBehind(m, m', item, ts, n)
    ensures Owns(m'.nodes, WithKids(m0, item, ts + [Tree(n, NoRef, NoRef, [])]))
  {
    var u := Tree(n, NoRef, NoRef, []);
    ListMeans(m0, m, item, ts);
    AppendTree(m'.nodes, ts, u);
    LinkLastChild(m0, m, m', item, ts, n);
    OwnLastChild(m0, m, m', item, ts, n);
    assert Owns(m'.nodes, u);
    assert Top(ts + [u], 0) == if ts == [] then n else Top(ts, 0);
    assert NodeOwns(m.nodes, WithKids(m0, item, ts));
  }

  lemma GrowChildCells(m0: Mem, m: Mem, m': Mem, item: Ptr, ts: seq<Tree>, n: Ptr)
    requires item in m0.nodes && Grown(m0, m, item, WithKids(m0, item, ts)) && LinkedBehind(m, m', item, ts, n)
    ensures NewCells(m0, m', item, CellsAll(ts + [Tree(n, NoRef, NoRef, [])]))
    ensures OtherNodes(m0, m', item) && SamePools(m0, m', item)
  {
    var u := Tree(n, NoRef, NoRef, []);
    ListMeans(m0, m, item, ts);
    AppendTree(m.nodes, ts, u);
    assert Cells(u) == {n};
    if ts != [] {
      InList(ts, |ts| - 1);
    }
    forall k <- m0.live | k != item ensures k in m0.nodes && k in m'.nodes && m'.nodes[k] == m0.nodes[k] {
      assert k in m.live && k !in CellsAll(ts);
    }
  }

  lemma GrowChildTexts(m0: Mem, m: Mem, m': Mem, item: Ptr, ts: seq<Tree>, n: Ptr)
    requires item in m0.nodes && Grown(m0, m, item, WithKids(m0, item, ts)) && LinkedBehind(m, m', item, ts, n)
    ensures var us := ts + [Tree(n, NoRef, NoRef, [])]; NewTexts(m0, m', TextsAll(us)) && DisjointAll(us)
  {
    var u := Tree(n, NoRef, NoRef, []);
    ListMeans(m0, m, item, ts);
    AppendTree(m.nodes, ts, u);
    assert Cells(u) == {n} && Texts(u) == {};
    assert TextsAll(ts) + {} == TextsAll(ts);
    assert n !in CellsAll(ts);
  }

  lemma LinkLastChild(m0: Mem, m: Mem, m': Mem, item: Ptr, ts: seq<Tree>, n: Ptr)
    requires item in m0.nodes && Grown(m0, m, item, WithKids(m0, item, ts)) && LinkedBehind(m, m', item, ts, n)
    ensures Linked(m'.nodes, ts + [Tree(n, NoRef, NoRef, [])])
  {
    ListMeans(m0, m, item, ts);
    var ts' := ts + [Tree(n, NoRef, NoRef, [])];
    forall i | 0 <= i < |ts'| ensures LinkedAt(m'.nodes, ts', i) {
      if i < |ts| {
        KidLinked(m0, m, m', item, ts, n, i);
      }
    }
  }

  lemma KidLinked(m0: Mem, m: Mem, m': Mem, item: Ptr, ts: seq<Tree>, n: Ptr, i: int)
    requires item in m0.nodes && Grown(m0, m, item, WithKids(m0, item, ts)) && LinkedBehind(m, m', item, ts, n)
    requires 0 <= i < |ts|
    ensures LinkedAt(m'.nodes, ts + [Tree(n, NoRef, NoRef, [])], i)
  {
    ListMeans(m0, m, item, ts);
    assert LinkedAt(m.nodes, ts, i);
    InList(ts, i);
    if i < |ts| - 1 {
      DistinctTops(ts, i, |ts| - 1);
    }
  }

  lemma {:induction false} DistinctTops(ts: seq<Tree>, i: int, j: int)
    requires DisjointAll(ts) && 0 <= i < j < |ts|
    ensures ts[i].addr != ts[j].addr && Cells(ts[i]) !! Cells(ts[j])
  {
    if i == 0 {
      assert ts[1..][j - 1] == ts[j];
      InList(ts[1..], j - 1);
    } else {
      assert ts[1..][i - 1] == ts[i] && ts[1..][j - 1] == ts[j];
      DistinctTops(ts[1..], i - 1, j - 1);
    }
  }

  lemma OwnLastChild(m0: Mem, m: Mem, m': Mem, item: Ptr, ts: seq<Tree>, n: Ptr)
    requires item in m0.nodes && Grown(m0, m, item, WithKids(m0, item, ts)) && LinkedBehind(m, m', item, ts, n)
    ensures OwnsAll(m'.nodes, ts)
  {
    ListMeans(m0, m, item, ts);
    if ts != [] {
      var front, last := ts[..|ts| - 1], ts[|ts| - 1];
      assert ts == front + [last];
      AppendTree(m.nodes, front, last);
      AppendTree(m'.nodes, front, last);
      InList(ts, |ts| - 1);
      assert Disjoint(last) && Cells(last) == {last.addr} + CellsAll(last.kids);
      RelinkTree(m.nodes, m'.nodes, last);
      FrameTrees(m.nodes, m'.nodes, front);
    }
  }

  lemma LeafOwns(nodes: map<Ptr, Node>, t: Tree)
    requires NodeOwns(nodes, t) && t.kids == []
    ensures Owns(nodes, t) && DisjointAll(t.kids) && CellsAll(t.kids) == {} && TextsAll(t.kids) == {}
  {
  }

  /** Nothing has grown yet. */
  lemma GrowNothing(m: Mem, m': Mem, item: Ptr)
    requires item in m.live && item in m.nodes && item in m'.nodes && Blank(m.nodes[item]) && item != Nil
    requires KeptLinks(m.nodes[item], m'.nodes[item]) && Blank(m'.nodes[item])
    requires m'.live == m.live && m'.strings == m.strings && SamePools(m, m', item) && OtherNodes(m, m', item)
    ensures Grown(m, m', item, WithKids(m, item, []))
  {
    LeafOwns(m'.nodes, WithKids(m, item, []));
    ListGrown(m, m', item, []);
  }

  /** A new string has been stored into a blank node. */
  lemma GrowText(m: Mem, m': Mem, item: Ptr, p: int, text: string)
    requires item in m.live && item in m.nodes && item != Nil && Blank(m.nodes[item]) && p !in m.strings
    requires m'.strings == m.strings[p := text] && m'.live == m.live && m'.pools == m.pools
    requires m'.nodes == m.nodes[item := m.nodes[item].(kind := Kind.String, valuedouble := 0.0, valuestring := Ref(p))]
    requires m.live <= m.nodes.Keys
    ensures var t := Tree(item, Ref(p), m.nodes[item].name, []);
            Grown(m, m', item, t) && Is(m'.nodes, m'.strings, t, Value.String(text))
  {
    var t := Tree(item, Ref(p), m.nodes[item].name, []);
    LeafOwns(m'.nodes, t);
    assert RefSet(t.text) + TextsAll(t.kids) == {p};
  }

  // ---- the values of a child list ----

  ghost predicate Items(m: Mem, ts: seq<Tree>, vs: seq<Value>) {
    |ts| == |vs| && forall i | 0 <= i < |ts| :: Is(m.nodes, m.strings, ts[i], vs[i])
  }

  /** A node is a member of an object: its `string` and its value. */
  ghost predicate IsMember(m: Mem, t: Tree, v: Member) {
    Holds(m.strings, t.name, v.name) && Is(m.nodes, m.strings, t, v.value)
  }

  ghost predicate Pairs(m: Mem, ts: seq<Tree>, ms: seq<Member>) {
    |ts| == |ms| && forall i | 0 <= i < |ts| :: IsMember(m, ts[i], ms[i])
  }

  /** The nodes of a list keep their data, and its strings stay what they are. */
  ghost predicate KeepsOwn(m: Mem, m': Mem, ts: seq<Tree>) {
    && (forall n <- CellsAll(ts) | n in m.nodes :: n in m'.nodes && SameData(m.nodes[n], m'.nodes[n]))
    && (forall s <- TextsAll(ts) | s in m.strings :: s in m'.strings && m'.strings[s] == m.strings[s])
  }

  /** The nodes of a list keep their data, and every string stays what it is. */
  ghost predicate KeepsData(m: Mem, m': Mem, ts: seq<Tree>) {
    && (forall n <- CellsAll(ts) | n in m.nodes :: n in m'.nodes && SameData(m.nodes[n], m'.nodes[n]))
    && (forall s <- m.strings :: s in m'.strings && m'.strings[s] == m.strings[s])
  }

  lemma FrameItems(m: Mem, m': Mem, ts: seq<Tree>, vs: seq<Value>)
    requires Items(m, ts, vs) && KeepsOwn(m, m', ts)
    ensures Items(m', ts, vs)
  {
    forall i | 0 <= i < |ts| ensures Is(m'.nodes, m'.strings, ts[i], vs[i]) {
      InList(ts, i);
      FrameIs(m, m', ts[i], vs[i]);
    }
  }

  lemma FramePairs(m: Mem, m': Mem, ts: seq<Tree>, ms: seq<Member>)
    requires Pairs(m, ts, ms) && KeepsOwn(m, m', ts)
    ensures Pairs(m', ts, ms)
  {
    forall i | 0 <= i < |ts| ensures IsMember(m', ts[i], ms[i]) {
      assert IsMember(m, ts[i], ms[i]);
      InList(ts, i);
      assert RefSet(ts[i].name) <= Texts(ts[i]);
      FrameIs(m, m', ts[i], ms[i].value);
    }
  }

  /** Linking a new last child keeps the data of the list. */
  lemma LinkKeepsData(m0: Mem, m: Mem, m': Mem, item: Ptr, ts: seq<Tree>, n: Ptr)
    requires item in m0.nodes && Grown(m0, m, item, WithKids(m0, item, ts)) && LinkedBehind(m, m', item, ts, n)
    ensures KeepsData(m, m', ts) && SameData(m.nodes[item], m'.nodes[item])
  {
    ListMeans(m0, m, item, ts);
  }

  /** So does growing its last tree. */
  lemma GrowKeepsData(m0: Mem, m: Mem, m': Mem, item: Ptr, ts: seq<Tree>, u: Tree, t: Tree)
    requires LastGrew(m0, m, m', item, ts, u, t)
    ensures KeepsData(m, m', ts) && item in m.nodes && item in m'.nodes && SameData(m.nodes[item], m'.nodes[item])
  {
    ListMeans(m0, m, item, ts + [u]);
    GrownMeans(m, m', u.addr, t);
    GrowLastCells(m0, m, m', item, ts, u, t);
  }

  /** The string of the last child becomes its name. */
  ghost predicate LastNamed(m0: Mem, m: Mem, m': Mem, item: Ptr, ts: seq<Tree>, u: Tree) {
    && item in m0.nodes && u.kids == [] && u.name == NoRef && u.addr in m.nodes && !m.nodes[u.addr].reference
    && Grown(m0, m, item, WithKids(m0, item, ts + [u]))
    && m' == m.(nodes := m.nodes[u.addr := m.nodes[u.addr].(name := u.text, valuestring := NoRef)])
  }

  function Named(u: Tree): Tree { Tree(u.addr, NoRef, u.text, []) }

  lemma NameLast(m0: Mem, m: Mem, m': Mem, item: Ptr, ts: seq<Tree>, u: Tree)
    requires LastNamed(m0, m, m', item, ts, u)
    ensures Grown(m0, m', item, WithKids(m0, item, ts + [Named(u)])) && KeepsData(m, m', ts)
    ensures item in m'.nodes && m'.nodes[item] == m.nodes[item] && item != u.addr
  {
    ListMeans(m0, m, item, ts + [u]);
    NameLastSets(m0, m, m', item, ts, u);
    NameLastOwns(m0, m, m', item, ts, u);
    ListGrown(m0, m', item, ts + [Named(u)]);
  }

  lemma NameLastOwns(m0: Mem, m: Mem, m': Mem, item: Ptr, ts: seq<Tree>, u: Tree)
    requires LastNamed(m0, m, m', item, ts, u)
    ensures Owns(m'.nodes, WithKids(m0, item, ts + [Named(u)]))
  {
    ListMeans(m0, m, item, ts + [u]);
    NameLastSets(m0, m, m', item, ts, u);
    AppendTree(m.nodes, ts, u);
    AppendTree(m'.nodes, ts, Named(u));
    FrameTrees(m.nodes, m'.nodes, ts);
    LinkedLast(m, m', ts, u, Named(u));
    assert Top(ts + [Named(u)], 0) == Top(ts + [u], 0);
    assert Owns(m.nodes, u);
  }

  lemma NameLastSets(m0: Mem, m: Mem, m': Mem, item: Ptr, ts: seq<Tree>, u: Tree)
    requires LastNamed(m0, m, m', item, ts, u)
    ensures CellsAll(ts + [Named(u)]) == CellsAll(ts + [u]) && TextsAll(ts + [Named(u)]) == TextsAll(ts + [u])
    ensures DisjointAll(ts + [Named(u)]) && item != u.addr && u.addr !in CellsAll(ts) && u.addr !in m0.live
    ensures forall n <- CellsAll(ts) :: n in m.nodes && n in m'.nodes && m'.nodes[n] == m.nodes[n]
  {
    ListMeans(m0, m, item, ts + [u]);
    AppendTree(m.nodes, ts, u);
    AppendTree(m'.nodes, ts, Named(u));
    assert Cells(Named(u)) == Cells(u) == {u.addr} && Texts(Named(u)) == Texts(u);
    assert u.addr in CellsAll(ts + [u]);
    OwnedExist(m.nodes, ts);
  }

  lemma {:induction false} OwnedExist(nodes: map<Ptr, Node>, ts: seq<Tree>)
    requires OwnsAll(nodes, ts)
    ensures CellsAll(ts) <= nodes.Keys
    decreases ts
  {
    if ts == [] {
    } else {
      OwnedExist(nodes, ts[0].kids);
      OwnedExist(nodes, ts[1..]);
    }
  }

  /** `item->child = n`, or `last->next = n; n->prev = last` */
  method LinkChild(h: Heap, item: Ptr, last: Ptr, n: Ptr)
    requires h.Valid() && item in h.live && n in h.live && (last != Nil ==> last in h.live) && n != last
    modifies h`nodes
    ensures h.Valid()
    ensures h.nodes == if last == Nil then old(h.nodes)[item := old(h.nodes[item]).(child := n)]
                       else old(h.nodes)[last := old(h.nodes[last]).(next := n)][n := old(h.nodes[n]).(prev := last)]
  {
    if last == Nil {
      h.Store(item, h.nodes[item].(child := n));
    } else {
      h.Store(last, h.nodes[last].(next := n));
      h.Store(n, h.nodes[n].(prev := last));
    }
  }
}
