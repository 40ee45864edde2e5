/** Trees in no list, side by side: what parsing, appending, detaching, replacing and deleting do to them, on lists
    at any depth of any tree, and to the documents they hold. */
module Forests {
  import opened Sequences
  import opened Json
  import opened Memory
  import opened Heaps
  import opened Trees
  import opened HeapTrees
  import opened ChildLists
  import opened Subtrees
  import opened Contents
  import opened HeapParser
  import opened Scanner
  import Parser
  import Cuts

  // ---- forests ----

  /** A root is in no list. */
  ghost predicate RootAt(nodes: map<Ptr, Node>, f: seq<Tree>, i: int)
    requires 0 <= i < |f|
  {
    f[i].addr in nodes && nodes[f[i].addr].next == Nil && nodes[f[i].addr].prev == Nil
  }

  ghost predicate RootsOf(nodes: map<Ptr, Node>, f: seq<Tree>) { forall i | 0 <= i < |f| :: RootAt(nodes, f, i) }

  /** Trees in no list, well linked inside, and sharing nothing. */
  ghost predicate Forest(nodes: map<Ptr, Node>, f: seq<Tree>) {
    OwnsAll(nodes, f) && DisjointAll(f) && RootsOf(nodes, f)
  }

  /** None of the nodes borrows from another one. */
  ghost predicate Plain(nodes: map<Ptr, Node>, cells: set<Ptr>) {
    forall n <- cells :: n in nodes && !nodes[n].reference
  }

  /** Of the pools of m0 none holds a node of these, and none has changed; every other pool holds one. */
  ghost predicate PoolsSince(pools0: map<int, Pool>, pools: map<int, Pool>, cells: set<Ptr>) {
    && (forall q <- pools0 :: q in pools && pools[q] == pools0[q] && !HasMember(cells, q))
    && forall q <- pools :: q in pools0 || HasMember(cells, q)
  }

  /** Exactly the nodes and strings of the forest are in use beside those of m0, which are what they were. */
  ghost predicate Beside(m0: Mem, m: Mem, cells: set<Ptr>, texts: set<int>) {
    && cells !! m0.live && m.live == m0.live + cells && KeepsNodes(m0, m)
    && texts !! m0.strings.Keys && m.strings.Keys == m0.strings.Keys + texts
    && forall s <- m0.strings :: m.strings[s] == m0.strings[s]
  }

  ghost predicate Since(m0: Mem, m: Mem, f: seq<Tree>) {
    && Forest(m.nodes, f) && Plain(m.nodes, CellsAll(f))
    && Beside(m0, m, CellsAll(f), TextsAll(f)) && PoolsSince(m0.pools, m.pools, CellsAll(f))
  }

  lemma NoForest(m: Mem)
    requires m.live <= m.nodes.Keys
    ensures Since(m, m, [])
  {
  }

  /** Without any tree left, nodes, strings and pools are what they were. */
  lemma NothingLeft(m0: Mem, m: Mem)
    requires Since(m0, m, [])
    ensures Restored(m0, m)
  {
    assert Beside(m0, m, {}, {}) && PoolsSince(m0.pools, m.pools, {});
    SameStrings(m0.strings, m.strings);
    SamePoolsLeft(m0.pools, m.pools);
  }

  lemma SameStrings(strings: map<int, string>, strings': map<int, string>)
    requires strings'.Keys == strings.Keys + {} && forall s <- strings :: strings'[s] == strings[s]
    ensures strings' == strings
  {
    forall s | s in strings' || s in strings ensures s in strings' && s in strings && strings'[s] == strings[s] {
      assert s in strings'.Keys <==> s in strings.Keys;
    }
  }

  lemma SamePoolsLeft(pools: map<int, Pool>, pools': map<int, Pool>)
    requires PoolsSince(pools, pools', {})
    ensures pools' == pools
  {
    forall q | q in pools' || q in pools ensures q in pools' && q in pools && pools'[q] == pools[q] {
      assert !HasMember({}, q);
    }
  }

  /** The reference count of every pool made since is the number of nodes of the forest in it. */
  lemma PoolCounts(m0: Mem, m: Mem, f: seq<Tree>, q: int)
    requires Consistent(m0) && Consistent(m) && Since(m0, m, f) && q in m.pools && q !in m0.pools
    ensures m.pools[q].refcount == |set n | n in CellsAll(f) && InPool(n, q)|
  {
    assert PoolOk(m, q);
    forall n <- m0.live ensures !InPool(n, q) {
      PlacedInPool(m0, n);
    }
    forall n <- CellsAll(f) | InPool(n, q) ensures n in m.used[q] {
      assert Placed(m, n);
    }
    assert m.used[q] == set n | n in CellsAll(f) && InPool(n, q);
  }

  // ---- one tree of a forest ----

  lemma TreeOf(nodes: map<Ptr, Node>, f: seq<Tree>, k: int)
    requires Forest(nodes, f) && 0 <= k < |f|
    ensures Owns(nodes, f[k]) && Disjoint(f[k]) && Cells(f[k]) <= CellsAll(f) && Texts(f[k]) <= TextsAll(f)
    ensures nodes[f[k].addr].next == Nil && nodes[f[k].addr].prev == Nil
  {
    TakeOut(nodes, f, k);
    InList(f, k);
    assert RootAt(nodes, f, k);
  }

  /** A tree taken out of the forest, and what is left. */
  lemma Others(nodes: map<Ptr, Node>, f: seq<Tree>, k: int)
    requires Forest(nodes, f) && 0 <= k < |f|
    ensures Forest(nodes, Without(f, k))
    ensures Cells(f[k]) !! CellsAll(Without(f, k)) && Texts(f[k]) !! TextsAll(Without(f, k))
    ensures CellsAll(f) == CellsAll(Without(f, k)) + Cells(f[k]) && TextsAll(f) == TextsAll(Without(f, k)) + Texts(f[k])
  {
    TakeOut(nodes, f, k);
    OtherRoots(nodes, f, k);
  }

  lemma OtherRoots(nodes: map<Ptr, Node>, f: seq<Tree>, k: int)
    requires RootsOf(nodes, f) && 0 <= k < |f|
    ensures RootsOf(nodes, Without(f, k))
  {
    var g := Without(f, k);
    forall i | 0 <= i < |g| ensures RootAt(nodes, g, i) {
      assert RootAt(nodes, f, if i < k then i else i + 1);
    }
  }

  /** One more tree. */
  lemma OneTreeMore(nodes: map<Ptr, Node>, f: seq<Tree>, t: Tree)
    requires Forest(nodes, f) && Owns(nodes, t) && Disjoint(t) && nodes[t.addr].next == Nil && nodes[t.addr].prev == Nil
    requires CellsAll(f) !! Cells(t) && TextsAll(f) !! Texts(t)
    ensures Forest(nodes, f + [t]) && CellsAll(f + [t]) == CellsAll(f) + Cells(t)
    ensures TextsAll(f + [t]) == TextsAll(f) + Texts(t)
  {
    AppendTree(nodes, f, t);
    forall i | 0 <= i < |f| + 1 ensures RootAt(nodes, f + [t], i) {
      assert i < |f| ==> RootAt(nodes, f, i);
    }
  }

  lemma SameForest(nodes: map<Ptr, Node>, nodes': map<Ptr, Node>, f: seq<Tree>)
    requires Forest(nodes, f) && forall n <- CellsAll(f) :: n in nodes && n in nodes' && nodes'[n] == nodes[n]
    ensures Forest(nodes', f)
  {
    FrameTrees(nodes, nodes', f);
    forall i | 0 <= i < |f| ensures RootAt(nodes', f, i) {
      assert RootAt(nodes, f, i);
      InList(f, i);
    }
  }

  /** The forest after a change of one subtree. */
  ghost function Edited(f: seq<Tree>, k: nat, path: seq<nat>, u': Tree): seq<Tree>
    requires k < |f| && Reaches(f[k], path)
  {
    f[k := Put(f[k], path, u')]
  }

  lemma RootsEdited(nodes: map<Ptr, Node>, nodes': map<Ptr, Node>, f: seq<Tree>, k: int, t': Tree)
    requires Forest(nodes, f) && 0 <= k < |f| && Regrows(nodes, nodes', f[k], t')
    requires SameBut(nodes, nodes', CellsAll(f), f[k])
    ensures RootsOf(nodes', f[k := t'])
  {
    var g := f[k := t'];
    forall i | 0 <= i < |g| ensures RootAt(nodes', g, i) {
      assert RootAt(nodes, f, i);
      InList(f, i);
      DistinctFrom(f, k, i);
      assert f[i].addr in Cells(f[i]);
    }
  }

  /** A subtree at any depth changes: the forest is well formed with the new subtree. */
  lemma EditForest(m: Mem, nodes': map<Ptr, Node>, f: seq<Tree>, k: nat, path: seq<nat>, u': Tree)
    requires Forest(m.nodes, f) && CellsAll(f) <= m.live && TextsAll(f) <= m.strings.Keys
    requires k < |f| && Reaches(f[k], path) && Regrows(m.nodes, nodes', Sub(f[k], path), u')
    requires SameBut(m.nodes, nodes', CellsAll(f), Sub(f[k], path))
    requires Foreign(CellsAll(f), TextsAll(f), Sub(f[k], path), u')
    ensures var f', u := Edited(f, k, path, u'), Sub(f[k], path);
            && Forest(nodes', f') && Cells(u) <= CellsAll(f) && Texts(u) <= TextsAll(f)
            && CellsAll(f') == CellsAll(f) - Cells(u) + Cells(u') && TextsAll(f') == TextsAll(f) - Texts(u) + Texts(u')
  {
    var u, t' := Sub(f[k], path), Put(f[k], path, u');
    TreeOf(m.nodes, f, k);
    SubMine(m, f[k], path);
    Graft(m, nodes', f[k], path, u');
    KidInList(m.nodes, nodes', f, k, t');
    RootsEdited(m.nodes, nodes', f, k, t');
    EditSets(CellsAll(f), Cells(f[k]), Cells(u), Cells(u'));
    EditTexts(TextsAll(f), Texts(f[k]), Texts(u), Texts(u'));
  }

  lemma EditSets(all: set<Ptr>, t: set<Ptr>, u: set<Ptr>, u': set<Ptr>)
    requires u <= t <= all
    ensures all - t + (t - u + u') == all - u + u'
  {
  }

  lemma EditTexts(all: set<int>, t: set<int>, u: set<int>, u': set<int>)
    requires u <= t <= all
    ensures all - t + (t - u + u') == all - u + u'
  {
  }

  // ---- what a step does to the memory ----

  /** From m to m' these nodes and strings of the forest have been given back, with the pools left without a
      node; the others keep their data, and outside the forest nothing has changed. */
  ghost predicate Loses(m: Mem, m': Mem, f: seq<Tree>, gone: set<Ptr>, texts: set<int>) {
    && gone <= CellsAll(f) && texts <= TextsAll(f)
    && m'.live == m.live - gone && m'.strings == m.strings - texts
    && (forall n <- m'.live :: n in m.nodes && n in m'.nodes && SameData(m.nodes[n], m'.nodes[n]))
    && SameOutside(m, m', CellsAll(f)) && Released(m.pools, gone, m'.pools, m'.live)
  }

  lemma SinceStep(m0: Mem, m: Mem, m': Mem, f: seq<Tree>, f': seq<Tree>, gone: set<Ptr>, texts: set<int>)
    requires Consistent(m0) && Since(m0, m, f) && Loses(m, m', f, gone, texts) && Forest(m'.nodes, f')
    requires CellsAll(f') == CellsAll(f) - gone && TextsAll(f') == TextsAll(f) - texts
    ensures Since(m0, m', f') && Kept(m, m', f')
  {
    BesideStep(m0, m, m', f, gone, texts, CellsAll(f'), TextsAll(f'));
    PoolsStep(m0, m, m', CellsAll(f), gone, CellsAll(f'));
    PlainStep(m, m', CellsAll(f), CellsAll(f'));
    KeptStep(m0, m, m', f, f', gone, texts);
  }

  /** What the trees hold is what their nodes and strings held before. */
  ghost predicate Kept(m: Mem, m': Mem, f: seq<Tree>) { SameContents(m, m', CellsAll(f), TextsAll(f)) }

  lemma KeptStep(m0: Mem, m: Mem, m': Mem, f: seq<Tree>, f': seq<Tree>, gone: set<Ptr>, texts: set<int>)
    requires Beside(m0, m, CellsAll(f), TextsAll(f)) && Loses(m, m', f, gone, texts)
    requires CellsAll(f') == CellsAll(f) - gone && TextsAll(f') == TextsAll(f) - texts
    ensures Kept(m, m', f')
  {
    assert CellsAll(f') <= m'.live;
    assert TextsAll(f') <= m'.strings.Keys;
  }

  lemma KeptSame(m0: Mem, m: Mem, f: seq<Tree>)
    requires Since(m0, m, f)
    ensures Kept(m, m, f)
  {
    assert TextsAll(f) <= m.strings.Keys;
  }

  lemma PlainStep(m: Mem, m': Mem, cells: set<Ptr>, cells': set<Ptr>)
    requires Plain(m.nodes, cells) && cells' <= cells && cells' <= m'.live
    requires forall n <- m'.live :: n in m.nodes && n in m'.nodes && SameData(m.nodes[n], m'.nodes[n])
    ensures Plain(m'.nodes, cells')
  {
  }

  lemma BesideStep(m0: Mem, m: Mem, m': Mem, f: seq<Tree>, gone: set<Ptr>, texts: set<int>, cells': set<Ptr>,
                   texts': set<int>)
    requires Beside(m0, m, CellsAll(f), TextsAll(f)) && Loses(m, m', f, gone, texts)
    requires cells' == CellsAll(f) - gone && texts' == TextsAll(f) - texts
    ensures Beside(m0, m', cells', texts')
  {
    forall n <- m0.live ensures n in m0.nodes && n in m'.nodes && m'.nodes[n] == m0.nodes[n] {
      assert n in m.live && n !in CellsAll(f) && n in m'.live;
    }
    assert m'.strings.Keys == m.strings.Keys - texts;
  }

  lemma PoolsStep(m0: Mem, m: Mem, m': Mem, cells: set<Ptr>, gone: set<Ptr>, cells': set<Ptr>)
    requires Consistent(m0) && PoolsSince(m0.pools, m.pools, cells) && Released(m.pools, gone, m'.pools, m'.live)
    requires gone <= cells && cells' == cells - gone && m'.live == m0.live + cells'
    ensures PoolsSince(m0.pools, m'.pools, cells')
  {
    forall q <- m0.pools ensures q in m'.pools && m'.pools[q] == m0.pools[q] && !HasMember(cells', q) {
      assert q in m.pools && !HasMember(cells, q);
      forall n <- cells ensures !InPool(n, q) {
      }
      assert !HasMember(gone, q) && !HasMember(cells', q);
      assert PoolReleased(m.pools, gone, m'.pools, m'.live, q);
    }
    forall q <- m'.pools ensures q in m0.pools || HasMember(cells', q) {
      NodeLeft(m0, m, m', cells, gone, cells', q);
    }
  }

  lemma NodeLeft(m0: Mem, m: Mem, m': Mem, cells: set<Ptr>, gone: set<Ptr>, cells': set<Ptr>, q: int)
    requires Consistent(m0) && PoolsSince(m0.pools, m.pools, cells) && Released(m.pools, gone, m'.pools, m'.live)
    requires gone <= cells && cells' == cells - gone && m'.live == m0.live + cells' && q in m'.pools
    ensures q in m0.pools || HasMember(cells', q)
  {
    assert PoolReleased(m.pools, gone, m'.pools, m'.live, q);
    if q !in m0.pools {
      if HasMember(gone, q) {
        var n :| n in m'.live && InPool(n, q);
        if n in m0.live {
          PlacedInPool(m0, n);
        }
      } else {
        var n :| n in cells && InPool(n, q);
        assert n !in gone;
      }
    }
  }

  // ---- calls ----

  predicate Named(f: seq<Tree>, tree: nat, path: seq<nat>) { tree < |f| && Reaches(f[tree], path) }

  /** Everything that the call names is there. */
  predicate Fits(f: seq<Tree>, c: Call) {
    match c
    case Parse(_) => true
    case Append(item, tree, path) => item < |f| && Named(Without(f, item), tree, path)
    case Detach(tree, path, _) => Named(f, tree, path)
    case Replace(item, tree, path, _) => item < |f| && Named(Without(f, item), tree, path)
    case DeleteItem(tree, path, _) => Named(f, tree, path)
    case Delete(tree) => tree < |f|
  }

  /** The forest after a call that does not parse; a position behind the end of a list does nothing. */
  ghost function After(f: seq<Tree>, c: Call): seq<Tree>
    requires Fits(f, c) && !c.Parse?
  {
    match c
    case Append(item, tree, path) => Appended(f, item, tree, path)
    case Detach(tree, path, which) =>
      if Position(which) < |Sub(f[tree], path).kids| then
        Cut(f, tree, path, Position(which)) + [Sub(f[tree], path).kids[Position(which)]]
      else f
    case Replace(item, tree, path, which) =>
      if Position(which) < |Sub(Without(f, item)[tree], path).kids| then
        Replaced(f, item, tree, path, Position(which))
      else f
    case DeleteItem(tree, path, which) =>
      if Position(which) < |Sub(f[tree], path).kids| then Cut(f, tree, path, Position(which)) else f
    case Delete(tree) => Without(f, tree)
  }

  /** The list at the path has the item as its last child. */
  ghost function Appended(f: seq<Tree>, item: nat, tree: nat, path: seq<nat>): seq<Tree>
    requires item < |f| && Named(Without(f, item), tree, path)
  {
    var g := Without(f, item);
    var u := Sub(g[tree], path);
    Edited(g, tree, path, WithList(u, u.kids + [f[item]]))
  }

  /** The list at the path is without its i-th child. */
  ghost function Cut(f: seq<Tree>, tree: nat, path: seq<nat>, i: nat): seq<Tree>
    requires Named(f, tree, path) && i < |Sub(f[tree], path).kids|
  {
    var u := Sub(f[tree], path);
    Edited(f, tree, path, WithList(u, Without(u.kids, i)))
  }

  /** The list at the path has the item as its i-th child. */
  ghost function Replaced(f: seq<Tree>, item: nat, tree: nat, path: seq<nat>, i: nat): seq<Tree>
    requires item < |f| && Named(Without(f, item), tree, path) && i < |Sub(Without(f, item)[tree], path).kids|
  {
    var g := Without(f, item);
    var u := Sub(g[tree], path);
    Edited(g, tree, path, WithList(u, u.kids[i := f[item]]))
  }

  /** One call: a text that is parsed adds a tree, a call that names nothing is not made. */
  ghost predicate Step(f: seq<Tree>, c: Call, f': seq<Tree>) {
    if !Fits(f, c) then f' == f
    else if c.Parse? then
      if Parsable(c.text) then |f'| == |f| + 1 && f'[..|f|] == f else f' == f
    else f' == After(f, c)
  }

  // ---- what the trees hold, before and after a call ----

  lemma NamedData(m: Mem, f: seq<Tree>, tree: nat, path: seq<nat>)
    ensures Named(f, tree, path) <==> DataNamed(DataAll(m, f), tree, path)
    ensures Named(f, tree, path) ==>
              var u := Sub(f[tree], path);
              && DataOf(m, u) == DataSub(DataAll(m, f)[tree], path)
              && DataAll(m, u.kids) == KidsAt(DataAll(m, f), tree, path)
  {
    if tree < |f| {
      DataAt(m, f, tree);
      SubData(m, f[tree], path);
    }
  }

  /** Other children for the list that is named. */
  lemma EditData(m: Mem, f: seq<Tree>, tree: nat, path: seq<nat>, kids: seq<Tree>)
    requires Named(f, tree, path) && DataNamed(DataAll(m, f), tree, path)
    ensures DataAll(m, Edited(f, tree, path, WithList(Sub(f[tree], path), kids)))
         == WithKidsAt(DataAll(m, f), tree, path, DataAll(m, kids))
  {
    var u' := WithList(Sub(f[tree], path), kids);
    NamedData(m, f, tree, path);
    DataAt(m, f, tree);
    assert DataOf(m, u') == DataOf(m, Sub(f[tree], path)).(kids := DataAll(m, kids));
    PutData(m, f[tree], path, u');
    UpdateData(m, f, tree, Put(f[tree], path, u'));
  }

  lemma FitsData(m: Mem, f: seq<Tree>, c: Call)
    ensures Fits(f, c) <==> DataFits(DataAll(m, f), c)
  {
    match c
    case Parse(_) =>
    case Delete(_) =>
    case Detach(tree, path, _) => NamedData(m, f, tree, path);
    case DeleteItem(tree, path, _) => NamedData(m, f, tree, path);
    case Append(item, tree, path) =>
      if item < |f| {
        ItemNamedData(m, f, item, tree, path);
      }
    case Replace(item, tree, path, _) =>
      if item < |f| {
        ItemNamedData(m, f, item, tree, path);
      }
  }

  lemma ItemNamedData(m: Mem, f: seq<Tree>, item: nat, tree: nat, path: seq<nat>)
    requires item < |f|
    ensures Named(Without(f, item), tree, path) <==> DataNamed(Without(DataAll(m, f), item), tree, path)
    ensures DataAll(m, Without(f, item)) == Without(DataAll(m, f), item) && DataAll(m, f)[item] == DataOf(m, f[item])
  {
    WithoutData(m, f, item);
    NamedData(m, Without(f, item), tree, path);
    DataAt(m, f, item);
  }

  lemma AppendedData(m: Mem, f: seq<Tree>, item: nat, tree: nat, path: seq<nat>)
    requires Fits(f, Append(item, tree, path)) && DataFits(DataAll(m, f), Append(item, tree, path))
    ensures DataAll(m, Appended(f, item, tree, path)) == DataAfter(DataAll(m, f), Append(item, tree, path))
  {
    var g := Without(f, item);
    var u := Sub(g[tree], path);
    ItemNamedData(m, f, item, tree, path);
    NamedData(m, g, tree, path);
    AppendData(m, u.kids, f[item]);
    EditData(m, g, tree, path, u.kids + [f[item]]);
  }

  lemma CutData(m: Mem, f: seq<Tree>, tree: nat, path: seq<nat>, i: nat)
    requires Named(f, tree, path) && DataNamed(DataAll(m, f), tree, path) && i < |Sub(f[tree], path).kids|
    ensures var kids := KidsAt(DataAll(m, f), tree, path);
            && i < |kids| && DataOf(m, Sub(f[tree], path).kids[i]) == kids[i]
            && DataAll(m, Cut(f, tree, path, i)) == WithKidsAt(DataAll(m, f), tree, path, Without(kids, i))
  {
    var u := Sub(f[tree], path);
    NamedData(m, f, tree, path);
    DataAt(m, u.kids, i);
    WithoutData(m, u.kids, i);
    EditData(m, f, tree, path, Without(u.kids, i));
  }

  lemma DetachedData(m: Mem, f: seq<Tree>, tree: nat, path: seq<nat>, which: int)
    requires Named(f, tree, path) && DataNamed(DataAll(m, f), tree, path)
    ensures DataAll(m, After(f, Detach(tree, path, which))) == DataAfter(DataAll(m, f), Detach(tree, path, which))
  {
    var u, i := Sub(f[tree], path), Position(which);
    NamedData(m, f, tree, path);
    if i < |u.kids| {
      CutData(m, f, tree, path, i);
      AppendData(m, Cut(f, tree, path, i), u.kids[i]);
    }
  }

  lemma DeletedData(m: Mem, f: seq<Tree>, tree: nat, path: seq<nat>, which: int)
    requires Named(f, tree, path) && DataNamed(DataAll(m, f), tree, path)
    ensures var c := DeleteItem(tree, path, which); DataAll(m, After(f, c)) == DataAfter(DataAll(m, f), c)
  {
    NamedData(m, f, tree, path);
    if Position(which) < |Sub(f[tree], path).kids| {
      CutData(m, f, tree, path, Position(which));
    }
  }

  lemma ReplacedData(m: Mem, f: seq<Tree>, item: nat, tree: nat, path: seq<nat>, which: int)
    requires var c := Replace(item, tree, path, which); Fits(f, c) && DataFits(DataAll(m, f), c)
    ensures var c := Replace(item, tree, path, which); DataAll(m, After(f, c)) == DataAfter(DataAll(m, f), c)
  {
    var g, i := Without(f, item), Position(which);
    var u := Sub(g[tree], path);
    ItemNamedData(m, f, item, tree, path);
    NamedData(m, g, tree, path);
    if i < |u.kids| {
      UpdateData(m, u.kids, i, f[item]);
      EditData(m, g, tree, path, u.kids[i := f[item]]);
    }
  }

  /** The calls on trees do on what the trees hold what the calls on documents do. */
  lemma AfterData(m: Mem, f: seq<Tree>, c: Call)
    requires Fits(f, c) && DataFits(DataAll(m, f), c) && !c.Parse?
    ensures DataAll(m, After(f, c)) == DataAfter(DataAll(m, f), c)
  {
    match c
    case Append(item, tree, path) => AppendedData(m, f, item, tree, path);
    case Detach(tree, path, which) => DetachedData(m, f, tree, path, which);
    case Replace(item, tree, path, which) => ReplacedData(m, f, item, tree, path, which);
    case DeleteItem(tree, path, which) => DeletedData(m, f, tree, path, which);
    case Delete(tree) => WithoutData(m, f, tree);
  }

  /** A step on trees that keeps what they hold is a step on documents. */
  lemma StepData(m: Mem, m': Mem, f: seq<Tree>, c: Call, f': seq<Tree>)
    requires Step(f, c, f') && !c.Parse? && Kept(m, m', f')
    ensures DataStep(DataAll(m, f), c, DataAll(m', f'))
  {
    FitsData(m, f, c);
    if Fits(f, c) {
      AfterData(m, f, c);
    }
    FrameData(m, m', f');
  }

  lemma ParseData(m: Mem, m': Mem, f: seq<Tree>, text: string, t: Tree, v: Value)
    requires Kept(m, m', f) && Parsable(text) && v == Parser.Parse(text).value && t.name == NoRef
    requires Is(m'.nodes, m'.strings, t, v) && Plain(m'.nodes, Cells(t))
    ensures DataStep(DataAll(m, f), Parse(text), DataAll(m', f + [t]))
  {
    FrameData(m, m', f);
    AppendData(m', f, t);
    IsMeans(m', t, v);
    var ds := DataAll(m', f);
    assert (ds + [DataOf(m', t)])[..|f|] == ds;
  }

  // ---- the calls on lists ----

  /** The list that a call names. */
  lemma ListNamed(m0: Mem, m: Mem, f: seq<Tree>, g: seq<Tree>, tree: nat, path: seq<nat>)
    requires Since(m0, m, f) && Forest(m.nodes, g) && CellsAll(g) <= CellsAll(f) && TextsAll(g) <= TextsAll(f)
    requires Named(g, tree, path)
    ensures var u := Sub(g[tree], path); List(m, u) && Cells(u) <= CellsAll(g) && Texts(u) <= TextsAll(g)
    ensures Mine(m, g[tree]) && Cells(g[tree]) <= CellsAll(g)
  {
    TreeOf(m.nodes, g, tree);
    SubMine(m, g[tree], path);
    assert Sub(g[tree], path).addr in Cells(Sub(g[tree], path));
  }

  /** The list of a call becomes u': the step as a whole. */
  lemma ListChanges(m: Mem, m': Mem, g: seq<Tree>, tree: nat, path: seq<nat>, u': Tree, inside: set<Ptr>)
    requires Forest(m.nodes, g) && CellsAll(g) <= m.live && TextsAll(g) <= m.strings.Keys && Named(g, tree, path)
    requires var u := Sub(g[tree], path);
             && List(m', u') && u'.addr == u.addr && u'.name == u.name && OnlyChild(m, m', u.addr)
             && Foreign(CellsAll(g), TextsAll(g), u, u') && CellsAll(g) - Cells(u) <= m'.live
             && SameOutside(m, m', inside) && inside !! CellsAll(g) - Cells(u)
    ensures var f', u := Edited(g, tree, path, u'), Sub(g[tree], path);
            && Forest(m'.nodes, f') && Cells(u) <= CellsAll(g) && Texts(u) <= TextsAll(g)
            && CellsAll(f') == CellsAll(g) - Cells(u) + Cells(u') && TextsAll(f') == TextsAll(g) - Texts(u) + Texts(u')
  {
    EditForest(m, m'.nodes, g, tree, path, u');
  }

  /** A forest without one of its trees, and that tree as a new item for a list of the others. */
  lemma ItemReady(m0: Mem, m: Mem, f: seq<Tree>, item: nat, tree: nat, path: seq<nat>)
    requires Since(m0, m, f) && item < |f| && Named(Without(f, item), tree, path)
    ensures var g, t := Without(f, item), f[item];
            && Forest(m.nodes, g) && CellsAll(f) == CellsAll(g) + Cells(t) && TextsAll(f) == TextsAll(g) + Texts(t)
            && CellsAll(g) !! Cells(t) && TextsAll(g) !! Texts(t) && Loose(m, t)
            && List(m, Sub(g[tree], path)) && Apart(Sub(g[tree], path), t)
  {
    Others(m.nodes, f, item);
    TreeOf(m.nodes, f, item);
    ListNamed(m0, m, f, Without(f, item), tree, path);
  }

  /** New links only: nothing is given back. */
  lemma LinksLose(m: Mem, m': Mem, f: seq<Tree>, changed: set<Ptr>, inside: set<Ptr>)
    requires LinksOnly(m, m', changed) && m.live <= m.nodes.Keys && SameOutside(m, m', inside) && inside <= CellsAll(f)
    ensures Loses(m, m', f, {}, {})
  {
    NoneReleased(m, m');
    assert m.live - {} == m.live && m.strings - {} == m.strings;
  }

  lemma DeletesLose(m: Mem, m': Mem, f: seq<Tree>, list: Ptr, inside: set<Ptr>, t: Tree)
    requires Deletes(m, m', list, inside, t) && inside <= CellsAll(f) && Cells(t) <= CellsAll(f)
    requires Texts(t) <= TextsAll(f)
    ensures Loses(m, m', f, Cells(t), Texts(t))
  {
  }

  /** The sets of a step: the list u of the trees g takes the item t in and gives `gone` up. */
  lemma NewListSets<T>(g: set<T>, u: set<T>, t: set<T>, gone: set<T>, u': set<T>)
    requires u <= g && t !! g && gone <= u && u' == u - gone + t
    ensures u' !! g - u && u + t !! g - u && gone <= g + t && u + t <= g + t && g - u + u' == g + t - gone
  {
  }

  /** The item t has become the last child of the list that is named. */
  ghost predicate HasAppended(m: Mem, m': Mem, u: Tree, t: Tree) {
    && LinksOnly(m, m', {u.addr, Top(u.kids, |u.kids| - 1), t.addr}) && OnlyChild(m, m', u.addr)
    && List(m', WithList(u, u.kids + [t]))
  }

  lemma AppendChanges(m: Mem, m': Mem, g: seq<Tree>, t: Tree, tree: nat, path: seq<nat>)
    requires Forest(m.nodes, g) && CellsAll(g) <= m.live && TextsAll(g) <= m.strings.Keys && Named(g, tree, path)
    requires CellsAll(g) !! Cells(t) && TextsAll(g) !! Texts(t) && m'.live == m.live
    requires var u := Sub(g[tree], path);
             && Cells(u) <= CellsAll(g) && Texts(u) <= TextsAll(g) && SameOutside(m, m', Cells(u) + Cells(t))
             && OnlyChild(m, m', u.addr) && List(m', WithList(u, u.kids + [t]))
    ensures var u := Sub(g[tree], path);
            var f' := Edited(g, tree, path, WithList(u, u.kids + [t]));
            Forest(m'.nodes, f') && CellsAll(f') == CellsAll(g) + Cells(t) && TextsAll(f') == TextsAll(g) + Texts(t)
  {
    var u := Sub(g[tree], path);
    var u' := WithList(u, u.kids + [t]);
    AppendSets(u, t);
    NewListSets(CellsAll(g), Cells(u), Cells(t), {}, Cells(u'));
    NewListSets(TextsAll(g), Texts(u), Texts(t), {}, Texts(u'));
    ListChanges(m, m', g, tree, path, u', Cells(u) + Cells(t));
  }

  lemma AppendLoses(m0: Mem, m: Mem, m': Mem, f: seq<Tree>, item: nat, tree: nat, path: seq<nat>)
    requires Since(m0, m, f) && item < |f| && Named(Without(f, item), tree, path) && Placement(m)
    requires HasAppended(m, m', Sub(Without(f, item)[tree], path), f[item])
    ensures Loses(m, m', f, {}, {})
    ensures var u := Sub(Without(f, item)[tree], path); SameOutside(m, m', Cells(u) + Cells(f[item]))
  {
    var t, u := f[item], Sub(Without(f, item)[tree], path);
    ItemReady(m0, m, f, item, tree, path);
    ListNamed(m0, m, f, Without(f, item), tree, path);
    AppendInside(m, m', u, t);
    LinksLose(m, m', f, {u.addr, Top(u.kids, |u.kids| - 1), t.addr}, Cells(u) + Cells(t));
  }

  lemma AppendForest(m0: Mem, m: Mem, m': Mem, f: seq<Tree>, item: nat, tree: nat, path: seq<nat>)
    requires Since(m0, m, f) && item < |f| && Named(Without(f, item), tree, path)
    requires HasAppended(m, m', Sub(Without(f, item)[tree], path), f[item])
    requires SameOutside(m, m', Cells(Sub(Without(f, item)[tree], path)) + Cells(f[item]))
    ensures var f' := Appended(f, item, tree, path);
            Forest(m'.nodes, f') && CellsAll(f') == CellsAll(f) && TextsAll(f') == TextsAll(f)
  {
    ItemReady(m0, m, f, item, tree, path);
    ListNamed(m0, m, f, Without(f, item), tree, path);
    AppendChanges(m, m', Without(f, item), f[item], tree, path);
  }

  lemma AppendStep(m0: Mem, m: Mem, m': Mem, f: seq<Tree>, item: nat, tree: nat, path: seq<nat>)
    requires Consistent(m0) && Since(m0, m, f) && item < |f| && Named(Without(f, item), tree, path) && Placement(m)
    requires HasAppended(m, m', Sub(Without(f, item)[tree], path), f[item])
    ensures Since(m0, m', Appended(f, item, tree, path)) && Kept(m, m', Appended(f, item, tree, path))
  {
    AppendLoses(m0, m, m', f, item, tree, path);
    AppendForest(m0, m, m', f, item, tree, path);
    SinceStep(m0, m, m', f, Appended(f, item, tree, path), {}, {});
  }

  lemma AppendInside(m: Mem, m': Mem, u: Tree, t: Tree)
    requires List(m, u) && Mine(m, t) && Placement(m)
    requires LinksOnly(m, m', {u.addr, Top(u.kids, |u.kids| - 1), t.addr})
    ensures SameOutside(m, m', Cells(u) + Cells(t))
  {
    assert Nil in m.live ==> Placed(m, Nil);
    assert u.addr in Cells(u) && t.addr in Cells(t);
    if u.kids != [] {
      OnList(m.nodes, u, |u.kids| - 1);
    }
  }

  lemma NoneReleased(m: Mem, m': Mem)
    requires m'.pools == m.pools
    ensures Released(m.pools, {}, m'.pools, m'.live)
  {
    forall q <- m.pools ensures PoolReleased(m.pools, {}, m'.pools, m'.live, q) {
      assert !HasMember({}, q);
    }
  }

  /** The sets of a detachment: the list u of the forest f is left as b, and the child t is a tree of its own. */
  lemma SplitListSets<T>(f: set<T>, u: set<T>, b: set<T>, t: set<T>)
    requires u <= f && u == b + t && b !! t
    ensures b !! f - u && f - u + b !! t && f - u + b + t == f && f - u + b == f - t && t <= f
  {
  }

  /** The i-th child has left the list that is named. */
  ghost predicate HasDetached(m: Mem, m': Mem, u: Tree, i: nat)
    requires i < |u.kids|
  {
    && LinksOnly(m, m', {u.addr} + Around(u.kids, i)) && OnlyChild(m, m', u.addr)
    && List(m', WithList(u, Without(u.kids, i))) && Loose(m', u.kids[i])
  }

  lemma DetachChanges(m0: Mem, m: Mem, m': Mem, f: seq<Tree>, tree: nat, path: seq<nat>, i: nat)
    requires Since(m0, m, f) && Named(f, tree, path) && i < |Sub(f[tree], path).kids| && m.live <= m.nodes.Keys
    requires HasDetached(m, m', Sub(f[tree], path), i)
    ensures var f' := Cut(f, tree, path, i) + [Sub(f[tree], path).kids[i]];
            Forest(m'.nodes, f') && CellsAll(f') == CellsAll(f) && TextsAll(f') == TextsAll(f)
  {
    var u := Sub(f[tree], path);
    var b, t := WithList(u, Without(u.kids, i)), u.kids[i];
    ListNamed(m0, m, f, f, tree, path);
    UnlinkSets(m, u, i);
    UnlinkedOutside(m, m', u, i);
    SplitListSets(CellsAll(f), Cells(u), Cells(b), Cells(t));
    SplitListSets(TextsAll(f), Texts(u), Texts(b), Texts(t));
    ListChanges(m, m', f, tree, path, b, Cells(u));
    OneTreeMore(m'.nodes, Cut(f, tree, path, i), t);
  }

  lemma DetachStep(m0: Mem, m: Mem, m': Mem, f: seq<Tree>, tree: nat, path: seq<nat>, i: nat)
    requires Consistent(m0) && Since(m0, m, f) && Named(f, tree, path) && i < |Sub(f[tree], path).kids|
    requires m.live <= m.nodes.Keys
    requires HasDetached(m, m', Sub(f[tree], path), i)
    ensures var f' := Cut(f, tree, path, i) + [Sub(f[tree], path).kids[i]]; Since(m0, m', f') && Kept(m, m', f')
  {
    var u := Sub(f[tree], path);
    ListNamed(m0, m, f, f, tree, path);
    UnlinkedOutside(m, m', u, i);
    LinksLose(m, m', f, {u.addr} + Around(u.kids, i), Cells(u));
    DetachChanges(m0, m, m', f, tree, path, i);
    SinceStep(m0, m, m', f, Cut(f, tree, path, i) + [u.kids[i]], {}, {});
  }

  lemma DeleteItemStep(m0: Mem, m: Mem, m': Mem, f: seq<Tree>, tree: nat, path: seq<nat>, i: nat)
    requires Consistent(m0) && Since(m0, m, f) && Named(f, tree, path) && i < |Sub(f[tree], path).kids|
    requires var u := Sub(f[tree], path);
             && Deletes(m, m', u.addr, Cells(u), u.kids[i]) && List(m', WithList(u, Without(u.kids, i)))
    ensures Since(m0, m', Cut(f, tree, path, i)) && Kept(m, m', Cut(f, tree, path, i))
  {
    var u := Sub(f[tree], path);
    var b, t := WithList(u, Without(u.kids, i)), u.kids[i];
    ListNamed(m0, m, f, f, tree, path);
    UnlinkSets(m, u, i);
    SplitListSets(CellsAll(f), Cells(u), Cells(b), Cells(t));
    SplitListSets(TextsAll(f), Texts(u), Texts(b), Texts(t));
    ListChanges(m, m', f, tree, path, b, Cells(u));
    DeletesLose(m, m', f, u.addr, Cells(u), t);
    SinceStep(m0, m, m', f, Cut(f, tree, path, i), Cells(t), Texts(t));
  }

  lemma ReplaceStep(m0: Mem, m: Mem, m': Mem, f: seq<Tree>, item: nat, tree: nat, path: seq<nat>, i: nat)
    requires Consistent(m0) && Since(m0, m, f) && item < |f| && Named(Without(f, item), tree, path)
    requires var t, u := f[item], Sub(Without(f, item)[tree], path);
             && i < |u.kids| && Deletes(m, m', u.addr, Cells(u) + Cells(t), u.kids[i])
             && List(m', WithList(u, u.kids[i := t]))
    ensures Since(m0, m', Replaced(f, item, tree, path, i)) && Kept(m, m', Replaced(f, item, tree, path, i))
  {
    var g, t := Without(f, item), f[item];
    var u := Sub(g[tree], path);
    var u', kid := WithList(u, u.kids[i := t]), u.kids[i];
    ItemReady(m0, m, f, item, tree, path);
    ListNamed(m0, m, f, g, tree, path);
    SwapSets(m, u, i, t);
    NewListSets(CellsAll(g), Cells(u), Cells(t), Cells(kid), Cells(u'));
    NewListSets(TextsAll(g), Texts(u), Texts(t), Texts(kid), Texts(u'));
    ListChanges(m, m', g, tree, path, u', Cells(u) + Cells(t));
    DeletesLose(m, m', f, u.addr, Cells(u) + Cells(t), kid);
    SinceStep(m0, m, m', f, Replaced(f, item, tree, path, i), Cells(kid), Texts(kid));
  }

  lemma DeleteStep(m0: Mem, m: Mem, m': Mem, f: seq<Tree>, k: nat)
    requires Consistent(m0) && Since(m0, m, f) && k < |f| && GivenBack(m, m', Cells(f[k]), Texts(f[k]))
    ensures Since(m0, m', Without(f, k)) && Kept(m, m', Without(f, k))
  {
    Others(m.nodes, f, k);
    SameForest(m.nodes, m'.nodes, Without(f, k));
    SinceStep(m0, m, m', f, Without(f, k), Cells(f[k]), Texts(f[k]));
  }

  // ---- parsing ----

  lemma {:induction false} InSomeTree(ts: seq<Tree>, n: Ptr)
    requires n in CellsAll(ts)
    ensures exists i :: 0 <= i < |ts| && n in Cells(ts[i])
  {
    if n in Cells(ts[0]) {
    } else {
      InSomeTree(ts[1..], n);
      var i :| 0 <= i < |ts| - 1 && n in Cells(ts[1..][i]);
      assert n in Cells(ts[i + 1]);
    }
  }

  /** A value in memory borrows nothing. */
  lemma {:induction false} ValueIsPlain(m: Mem, t: Tree, v: Value)
    requires Is(m.nodes, m.strings, t, v)
    ensures Plain(m.nodes, Cells(t))
    decreases v
  {
    forall n <- Cells(t) ensures n in m.nodes && !m.nodes[n].reference {
      if n != t.addr {
        InSomeTree(t.kids, n);
        var i :| 0 <= i < |t.kids| && n in Cells(t.kids[i]);
        match v
        case Array(items) => ValueIsPlain(m, t.kids[i], items[i]);
        case Object(members) => ValueIsPlain(m, t.kids[i], members[i].value);
        case _ => assert false;
      }
    }
  }

  lemma ParseStep(m0: Mem, m: Mem, m': Mem, f: seq<Tree>, t: Tree, p: int, v: Value)
    requires Consistent(m0) && Since(m0, m, f) && Document(m, m', t, p) && Read(m', t, v)
    ensures Since(m0, m', f + [t])
  {
    SameForest(m.nodes, m'.nodes, f);
    OneTreeMore(m'.nodes, f, t);
    ValueIsPlain(m', t, v);
    ParseBeside(m0, m, m', CellsAll(f), TextsAll(f), Cells(t), Texts(t));
    ParsePools(m0, m, m', CellsAll(f), t, p);
  }

  lemma ParseKeeps(m0: Mem, m: Mem, m': Mem, f: seq<Tree>, t: Tree, p: int)
    requires Since(m0, m, f) && Alone(m, m', t, p) && KeepsNodes(m, m')
    ensures Kept(m, m', f)
  {
    KeptSame(m0, m, f);
  }

  lemma ParseBeside(m0: Mem, m: Mem, m': Mem, cells: set<Ptr>, texts: set<int>, more: set<Ptr>, moreTexts: set<int>)
    requires Beside(m0, m, cells, texts) && KeepsNodes(m, m')
    requires more !! m.live && m'.live == m.live + more
    requires moreTexts !! m.strings.Keys && m'.strings.Keys == m.strings.Keys + moreTexts
    requires forall s <- m.strings :: m'.strings[s] == m.strings[s]
    ensures Beside(m0, m', cells + more, texts + moreTexts)
  {
    assert m'.live == m0.live + (cells + more);
    assert m'.strings.Keys == m0.strings.Keys + (texts + moreTexts);
    forall s <- m0.strings ensures m'.strings[s] == m0.strings[s] {
      assert s in m.strings;
    }
  }

  lemma ParsePools(m0: Mem, m: Mem, m': Mem, cells: set<Ptr>, t: Tree, p: int)
    requires PoolsSince(m0.pools, m.pools, cells) && Alone(m, m', t, p)
    ensures PoolsSince(m0.pools, m'.pools, cells + Cells(t))
  {
    assert t.addr in Cells(t) && InPool(t.addr, p);
    forall q <- m0.pools ensures q in m'.pools && m'.pools[q] == m0.pools[q] && !HasMember(cells + Cells(t), q) {
      assert q in m.pools && q != p && (m'.pools - {p})[q] == m'.pools[q];
      forall n <- cells ensures !InPool(n, q) {
      }
    }
    forall q <- m'.pools ensures q in m0.pools || HasMember(cells + Cells(t), q) {
      if q == p {
        assert t.addr in cells + Cells(t);
      } else {
        assert q in m'.pools - {p};
        if n :| n in cells && InPool(n, q) {
          assert n in cells + Cells(t);
        }
      }
    }
  }

  lemma SameSince(m0: Mem, m: Mem, m': Mem, f: seq<Tree>)
    requires Since(m0, m, f) && Restored(m, m')
    ensures Since(m0, m', f) && Kept(m, m', f)
  {
    SameForest(m.nodes, m'.nodes, f);
    KeptSame(m0, m, f);
  }

  // ---- the program ----

  lemma PointersEdited(roots: seq<Ptr>, f: seq<Tree>, k: nat, path: seq<nat>, u': Tree)
    requires Pointers(roots, f) && Named(f, k, path) && u'.addr == Sub(f[k], path).addr
    ensures Pointers(roots, Edited(f, k, path, u'))
  {
  }

  /** The list that a call names; null if the call names none. */
  method FindList(h: Heap, roots: seq<Ptr>, tree: nat, path: seq<nat>, ghost m0: Mem, ghost f: seq<Tree>,
                  ghost g: seq<Tree>)
    returns (list: Ptr)
    requires h.Valid() && Since(m0, h.View(), f) && Forest(h.nodes, g) && Pointers(roots, g)
    requires CellsAll(g) <= CellsAll(f) && TextsAll(g) <= TextsAll(f)
    ensures list != Nil <==> Named(g, tree, path)
    ensures list != Nil ==> list == Sub(g[tree], path).addr && List(h.View(), Sub(g[tree], path))
  {
    if tree >= |roots| {
      return Nil;
    }
    TreeNamed(m0, h.View(), f, g, tree);
    OwnersShow(h.View(), g[tree]);
    list := Walk(h, roots[tree], path, g[tree]);
    if list != Nil {
      ListNamed(m0, h.View(), f, g, tree, path);
    }
  }

  lemma TreeNamed(m0: Mem, m: Mem, f: seq<Tree>, g: seq<Tree>, tree: nat)
    requires Since(m0, m, f) && Forest(m.nodes, g) && CellsAll(g) <= CellsAll(f) && TextsAll(g) <= TextsAll(f)
    requires tree < |g|
    ensures Mine(m, g[tree]) && Plain(m.nodes, Cells(g[tree]))
  {
    TreeOf(m.nodes, g, tree);
  }

  method DoAppend(h: Heap, roots: seq<Ptr>, item: nat, tree: nat, path: seq<nat>, ghost m0: Mem, ghost f: seq<Tree>)
    returns (roots': seq<Ptr>, ghost f': seq<Tree>)
    requires h.Valid() && Consistent(m0) && Since(m0, h.View(), f) && Pointers(roots, f) && item < |f|
    modifies h`nodes
    ensures h.Valid() && Since(m0, h.View(), f') && Pointers(roots', f') && Step(f, Append(item, tree, path), f')
    ensures Kept(old(h.View()), h.View(), f')
  {
    KeptSame(m0, h.View(), f);
    Others(h.nodes, f, item);
    PointersWithout(roots, f, item);
    ghost var g := Without(f, item);
    var list := FindList(h, Without(roots, item), tree, path, m0, f, g);
    roots', f' := roots, f;
    if list != Nil {
      ghost var u := Sub(g[tree], path);
      ItemReady(m0, h.View(), f, item, tree, path);
      AddItemToArray(h, list, roots[item], u, f[item]);
      AppendStep(m0, old(h.View()), h.View(), f, item, tree, path);
      roots', f' := Without(roots, item), Appended(f, item, tree, path);
      PointersEdited(roots', g, tree, path, WithList(u, u.kids + [f[item]]));
    }
  }

  lemma DetachedPointers(roots: seq<Ptr>, f: seq<Tree>, tree: nat, path: seq<nat>, which: int)
    requires Pointers(roots, f) && Named(f, tree, path) && Position(which) < |Sub(f[tree], path).kids|
    ensures var t, f' := Sub(f[tree], path).kids[Position(which)], After(f, Detach(tree, path, which));
            Pointers(roots + [t.addr], f') && Step(f, Detach(tree, path, which), f')
  {
    var u := Sub(f[tree], path);
    PointersEdited(roots, f, tree, path, WithList(u, Without(u.kids, Position(which))));
  }

  method DoDetach(h: Heap, roots: seq<Ptr>, tree: nat, path: seq<nat>, which: int, ghost m0: Mem, ghost f: seq<Tree>)
    returns (roots': seq<Ptr>, ghost f': seq<Tree>)
    requires h.Valid() && Consistent(m0) && Since(m0, h.View(), f) && Pointers(roots, f)
    modifies h`nodes
    ensures h.Valid() && Since(m0, h.View(), f') && Pointers(roots', f') && Step(f, Detach(tree, path, which), f')
    ensures Kept(old(h.View()), h.View(), f')
  {
    KeptSame(m0, h.View(), f);
    var list := FindList(h, roots, tree, path, m0, f, f);
    roots', f' := roots, f;
    if list != Nil {
      var c := DetachItemFromArray(h, list, which, Sub(f[tree], path));
      if Position(which) < |Sub(f[tree], path).kids| {
        DetachStep(m0, old(h.View()), h.View(), f, tree, path, Position(which));
        DetachedPointers(roots, f, tree, path, which);
        f' := After(f, Detach(tree, path, which));
      }
      roots' := if c != Nil then roots + [c] else roots;
    }
  }

  lemma CutPointers(roots: seq<Ptr>, f: seq<Tree>, tree: nat, path: seq<nat>, which: int)
    requires Pointers(roots, f) && Named(f, tree, path) && Position(which) < |Sub(f[tree], path).kids|
    ensures var f' := Cut(f, tree, path, Position(which));
            Pointers(roots, f') && Step(f, DeleteItem(tree, path, which), f')
  {
    var u := Sub(f[tree], path);
    PointersEdited(roots, f, tree, path, WithList(u, Without(u.kids, Position(which))));
  }

  method DoDeleteItem(h: Heap, roots: seq<Ptr>, tree: nat, path: seq<nat>, which: int, ghost m0: Mem,
                      ghost f: seq<Tree>)
    returns (ghost f': seq<Tree>)
    requires h.Valid() && Consistent(m0) && Since(m0, h.View(), f) && Pointers(roots, f)
    modifies h`nodes, h`strings, h`pools, h`live, h`used, h`free, h`freed, h`destroyed
    ensures h.Valid() && Since(m0, h.View(), f') && Pointers(roots, f') && Step(f, DeleteItem(tree, path, which), f')
    ensures Kept(old(h.View()), h.View(), f')
  {
    KeptSame(m0, h.View(), f);
    var list := FindList(h, roots, tree, path, m0, f, f);
    f' := f;
    if list != Nil {
      ghost var u, i := Sub(f[tree], path), Position(which);
      DeleteItemFromArray(h, list, which, u);
      if i < |u.kids| {
        DeleteItemStep(m0, old(h.View()), h.View(), f, tree, path, i);
        CutPointers(roots, f, tree, path, which);
        f' := Cut(f, tree, path, i);
      }
    }
  }

  lemma ReplacedPointers(roots: seq<Ptr>, f: seq<Tree>, item: nat, tree: nat, path: seq<nat>, which: int)
    requires Pointers(roots, f) && item < |f| && Named(Without(f, item), tree, path)
    requires Position(which) < |Sub(Without(f, item)[tree], path).kids|
    ensures var f' := Replaced(f, item, tree, path, Position(which));
            Pointers(Without(roots, item), f') && Step(f, Replace(item, tree, path, which), f')
  {
    var g := Without(f, item);
    var u := Sub(g[tree], path);
    PointersWithout(roots, f, item);
    PointersEdited(Without(roots, item), g, tree, path, WithList(u, u.kids[Position(which) := f[item]]));
  }

  method DoReplace(h: Heap, roots: seq<Ptr>, item: nat, tree: nat, path: seq<nat>, which: int, ghost m0: Mem,
                   ghost f: seq<Tree>)
    returns (roots': seq<Ptr>, ghost f': seq<Tree>)
    requires h.Valid() && Consistent(m0) && Since(m0, h.View(), f) && Pointers(roots, f) && item < |f|
    modifies h`nodes, h`strings, h`pools, h`live, h`used, h`free, h`freed, h`destroyed
    ensures h.Valid() && Since(m0, h.View(), f') && Pointers(roots', f')
    ensures Step(f, Replace(item, tree, path, which), f') && Kept(old(h.View()), h.View(), f')
  {
    KeptSame(m0, h.View(), f);
    Others(h.nodes, f, item);
    PointersWithout(roots, f, item);
    var list := FindList(h, Without(roots, item), tree, path, m0, f, Without(f, item));
    roots', f' := roots, f;
    if list != Nil {
      var done := ReplaceIn(h, list, roots[item], item, tree, path, which, m0, f);
      if done {
        ReplacedPointers(roots, f, item, tree, path, which);
        roots', f' := Without(roots, item), Replaced(f, item, tree, path, Position(which));
      }
    }
  }

  /** cJSON_ReplaceItemInArray on a list that is there; done unless the position lies behind its end. */
  method ReplaceIn(h: Heap, list: Ptr, newItem: Ptr, ghost item: nat, ghost tree: nat, ghost path: seq<nat>, which: int,
                   ghost m0: Mem, ghost f: seq<Tree>)
    returns (done: bool)
    requires h.Valid() && Consistent(m0) && Since(m0, h.View(), f) && item < |f| && newItem == f[item].addr
    requires Named(Without(f, item), tree, path) && list == Sub(Without(f, item)[tree], path).addr
    modifies h`nodes, h`strings, h`pools, h`live, h`used, h`free, h`freed, h`destroyed
    ensures h.Valid() && done == (Position(which) < |Sub(Without(f, item)[tree], path).kids|)
    ensures Since(m0, h.View(), if done then Replaced(f, item, tree, path, Position(which)) else f)
    ensures Kept(old(h.View()), h.View(), if done then Replaced(f, item, tree, path, Position(which)) else f)
  {
    KeptSame(m0, h.View(), f);
    ghost var u := Sub(Without(f, item)[tree], path);
    ItemReady(m0, h.View(), f, item, tree, path);
    OwnList(h.View(), u);
    var n := GetArraySize(h, list, u.kids);
    ReplaceItemInArray(h, list, which, newItem, u, f[item]);
    done := Position(which) < n;
    if done {
      ReplaceStep(m0, old(h.View()), h.View(), f, item, tree, path, Position(which));
    }
  }

  method DoDelete(h: Heap, roots: seq<Ptr>, k: nat, ghost m0: Mem, ghost f: seq<Tree>) returns (roots': seq<Ptr>)
    requires h.Valid() && Consistent(m0) && Since(m0, h.View(), f) && Pointers(roots, f) && k < |f|
    modifies h`nodes, h`strings, h`pools, h`live, h`used, h`free, h`freed, h`destroyed
    ensures h.Valid() && Since(m0, h.View(), Without(f, k)) && Pointers(roots', Without(f, k))
    ensures Kept(old(h.View()), h.View(), Without(f, k))
  {
    TreeOf(h.nodes, f, k);
    OnlyTree(h.nodes, f[k]);
    Trees.Delete(h, roots[k], [f[k]]);
    DeleteStep(m0, old(h.View()), h.View(), f, k);
    PointersWithout(roots, f, k);
    roots' := Without(roots, k);
  }

  /** A text that is not cut, as far as the parser reads it. */
  ghost predicate Definite(c: Call) { c.Parse? ==> !Cuts.ValueDue([], c.text) }

  /** cJSON_Parse on such a text: a document, or nothing. */
  method NewDocument(h: Heap, text: string) returns (c: Ptr, ghost t: Tree, ghost p: int, ghost v: Value)
    requires h.Valid() && Definite(Parse(text))
    modifies h
    ensures h.Valid() && (c != Nil <==> Parsable(text))
    ensures c != Nil ==> c == t.addr && Document(old(h.View()), h.View(), t, p) && Read(h.View(), t, v)
    ensures c != Nil ==> v == Parser.Parse(text).value
    ensures c == Nil ==> Restored(old(h.View()), h.View())
  {
    var r;
    r, c, v, t, p := HeapParser.Parse(h, text);
    DefiniteOutcome(r, v, text);
  }

  lemma DefiniteOutcome(r: Outcome, v: Value, text: string)
    requires Definite(Parse(text)) && Agrees(r, v, text, Parser.Parse(text))
    ensures (r.Next? <==> Parsable(text)) && (r.Failed? <==> !Parsable(text))
    ensures r.Next? ==> v == Parser.Parse(text).value
  {
    Cuts.ParseCutIff(text);
  }

  lemma TreeAdded(roots: seq<Ptr>, f: seq<Tree>, text: string, t: Tree)
    requires Pointers(roots, f) && Parsable(text)
    ensures Pointers(roots + [t.addr], f + [t]) && Step(f, Parse(text), f + [t])
  {
  }

  method DoParse(h: Heap, roots: seq<Ptr>, text: string, ghost m0: Mem, ghost f: seq<Tree>)
    returns (roots': seq<Ptr>, ghost f': seq<Tree>)
    requires h.Valid() && Consistent(m0) && Since(m0, h.View(), f) && Pointers(roots, f) && Definite(Parse(text))
    modifies h
    ensures h.Valid() && Since(m0, h.View(), f') && Pointers(roots', f') && Step(f, Parse(text), f')
    ensures DataStep(DataAll(old(h.View()), f), Parse(text), DataAll(h.View(), f'))
  {
    var c;
    ghost var t, p, v;
    c, t, p, v := NewDocument(h, text);
    if c != Nil {
      ParseStep(m0, old(h.View()), h.View(), f, t, p, v);
      ParseKeeps(m0, old(h.View()), h.View(), f, t, p);
      ValueIsPlain(h.View(), t, v);
      ParseData(old(h.View()), h.View(), f, text, t, v);
      TreeAdded(roots, f, text, t);
      roots', f' := roots + [c], f + [t];
    } else {
      SameSince(m0, old(h.View()), h.View(), f);
      FrameData(old(h.View()), h.View(), f);
      roots', f' := roots, f;
    }
  }

  /** One call; a call that names nothing is not made. The old trees and the new ones are related by Step, and what
      they hold by DataStep. */
  method Do(h: Heap, roots: seq<Ptr>, c: Call, ghost m0: Mem, ghost f: seq<Tree>)
    returns (roots': seq<Ptr>, ghost f': seq<Tree>)
    requires h.Valid() && Consistent(m0) && Since(m0, h.View(), f) && Pointers(roots, f) && Definite(c)
    modifies h
    ensures h.Valid() && Since(m0, h.View(), f') && Pointers(roots', f') && Step(f, c, f')
    ensures DataStep(DataAll(old(h.View()), f), c, DataAll(h.View(), f'))
  {
    if c.Parse? {
      roots', f' := DoParse(h, roots, c.text, m0, f);
    } else {
      roots', f' := DoOnLists(h, roots, c, m0, f);
      StepData(old(h.View()), h.View(), f, c, f');
    }
  }

  method DoOnLists(h: Heap, roots: seq<Ptr>, c: Call, ghost m0: Mem, ghost f: seq<Tree>)
    returns (roots': seq<Ptr>, ghost f': seq<Tree>)
    requires h.Valid() && Consistent(m0) && Since(m0, h.View(), f) && Pointers(roots, f) && !c.Parse?
    modifies h`nodes, h`strings, h`pools, h`live, h`used, h`free, h`freed, h`destroyed
    ensures h.Valid() && Since(m0, h.View(), f') && Pointers(roots', f') && Step(f, c, f')
    ensures Kept(old(h.View()), h.View(), f')
  {
    KeptSame(m0, h.View(), f);
    roots', f' := roots, f;
    match c {
      case Append(item, tree, path) =>
        if item < |roots| {
          roots', f' := DoAppend(h, roots, item, tree, path, m0, f);
        }
      case Detach(tree, path, which) => roots', f' := DoDetach(h, roots, tree, path, which, m0, f);
      case Replace(item, tree, path, which) =>
        if item < |roots| {
          roots', f' := DoReplace(h, roots, item, tree, path, which, m0, f);
        }
      case DeleteItem(tree, path, which) => f' := DoDeleteItem(h, roots, tree, path, which, m0, f);
      case Delete(tree) =>
        if tree < |roots| {
          roots' := DoDelete(h, roots, tree, m0, f);
          f' := Without(f, tree);
        }
    }
  }

  /** Everything that is left is deleted: nodes, strings and pools in use are those of the beginning. */
  method Finish(h: Heap, roots: seq<Ptr>, ghost m0: Mem, ghost f: seq<Tree>)
    requires h.Valid() && Consistent(m0) && Since(m0, h.View(), f) && Pointers(roots, f)
    modifies h`nodes, h`strings, h`pools, h`live, h`used, h`free, h`freed, h`destroyed
    ensures h.Valid() && Restored(m0, h.View())
  {
    var left := roots;
    ghost var g := f;
    while left != []
      invariant h.Valid() && Since(m0, h.View(), g) && Pointers(left, g)
      decreases |left|
    {
      left := DoDelete(h, left, 0, m0, g);
      g := Without(g, 0);
    }
    NothingLeft(m0, h.View());
  }

  /** A child that outlives its document: detach the first child, delete the root. Exactly the nodes and
      strings of the child are left, and the pool of the document stays in use, counting just these nodes. */
  method KeepFirstChild(h: Heap, root: Ptr, ghost m0: Mem, ghost doc: Tree, ghost p: int) returns (kid: Ptr)
    requires h.Valid() && Consistent(m0) && Since(m0, h.View(), [doc]) && root == doc.addr
    requires p !in m0.pools && forall n <- Cells(doc) :: InPool(n, p)
    modifies h`nodes, h`strings, h`pools, h`live, h`used, h`free, h`freed, h`destroyed
    ensures h.Valid() && (kid == Nil <==> doc.kids == []) && (kid == Nil ==> Restored(m0, h.View()))
    ensures kid != Nil ==> Outlives(m0, h.View(), kid, doc.kids[0], p)
  {
    var roots;
    ghost var f;
    roots, f := DoDetach(h, [root], 0, [], 0, m0, [doc]);
    FirstChildDetached(doc, f, p);
    roots := DoDelete(h, roots, 0, m0, f);
    if roots == [] {
      NothingLeft(m0, h.View());
      kid := Nil;
    } else {
      kid := roots[0];
      OnlyItsNodes(m0, h.View(), doc.kids[0], p);
    }
  }

  /** Beside m0 only this tree is in use, and the pool p counts its nodes. */
  ghost predicate Outlives(m0: Mem, m: Mem, kid: Ptr, t: Tree, p: int) {
    kid == t.addr && Since(m0, m, [t]) && p in m.pools && m.pools[p].refcount == |Cells(t)|
  }

  lemma FirstChildDetached(doc: Tree, f: seq<Tree>, p: int)
    requires Step([doc], Detach(0, [], 0), f) && forall n <- Cells(doc) :: InPool(n, p)
    ensures f != [] && (if doc.kids == [] then Without(f, 0) == [] else Without(f, 0) == [doc.kids[0]])
    ensures doc.kids != [] ==> forall n <- Cells(doc.kids[0]) :: InPool(n, p)
  {
    assert Reaches(doc, []) && Sub(doc, []) == doc;
    if doc.kids != [] {
      InList(doc.kids, 0);
      assert Cells(doc.kids[0]) <= Cells(doc);
    }
  }

  lemma OnlyItsNodes(m0: Mem, m: Mem, t: Tree, p: int)
    requires Consistent(m0) && Consistent(m) && Since(m0, m, [t]) && p !in m0.pools
    requires forall n <- Cells(t) :: InPool(n, p)
    ensures Outlives(m0, m, t.addr, t, p) && t.addr != Nil
  {
    Single(m.nodes, t);
    assert t.addr in Cells(t);
    PlacedInPool(m, t.addr);
    PoolCounts(m0, m, [t], p);
    assert Cells(t) == set n | n in CellsAll([t]) && InPool(n, p);
  }
}
