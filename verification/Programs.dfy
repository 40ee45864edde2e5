/** Whole programs on documents: any series of statements that parse, create, append, detach, replace and delete, by
    position or by key, on lists at any depth, with detached items that outlive the documents they come from. */
module Programs {
  import opened Sequences
  import opened Json
  import opened Memory
  import opened Heaps
  import opened Trees
  import opened HeapTrees
  import opened ChildLists
  import opened ObjectKeys
  import opened Subtrees
  import opened Contents
  import opened Forests
  import opened Creation
  import opened HeapParser
  import StringText

  // ---- statements, and what they do to documents ----

  /** A call on a text or on lists, a new value of one node, or one of the calls by key. */
  datatype Statement =
    | Make(call: Call)
    | New(value: Value)
    | AddKey(item: nat, tree: nat, path: seq<nat>, name: string)
    | DetachKey(tree: nat, path: seq<nat>, key: Key)
    | DeleteKey(tree: nat, path: seq<nat>, key: Key)
    | ReplaceKey(item: nat, tree: nat, path: seq<nat>, name: string)

  function NameAt(ds: seq<Data>, i: int): Key
    requires 0 <= i < |ds|
  {
    ds[i].name
  }

  function Names(ds: seq<Data>): (ks: seq<Key>)
    ensures |ks| == |ds| && forall i | 0 <= i < |ds| :: ks[i] == NameAt(ds, i)
  {
    if ds == [] then [] else [ds[0].name] + Names(ds[1..])
  }

  /** The position of the first child with the key; the number of children if there is none. */
  function Match(ds: seq<Data>, tree: nat, path: seq<nat>, key: Key): nat
    requires DataNamed(ds, tree, path)
  {
    Find(Names(KidsAt(ds, tree, path)), key)
  }

  /** The call by position that a call by key comes down to. */
  function ByPosition(ds: seq<Data>, s: Statement): Call
    requires (s.DetachKey? || s.DeleteKey?) && DataNamed(ds, s.tree, s.path)
  {
    var i := Match(ds, s.tree, s.path, s.key);
    if s.DetachKey? then Detach(s.tree, s.path, i) else DeleteItem(s.tree, s.path, i)
  }

  /** There are an item, a list, and in the list a child with the name, which the item replaces. */
  predicate Replaces(ds: seq<Data>, s: Statement) {
    && s.ReplaceKey? && s.item < |ds| && DataNamed(Without(ds, s.item), s.tree, s.path)
    && Match(Without(ds, s.item), s.tree, s.path, Key(s.name)) < |KidsAt(Without(ds, s.item), s.tree, s.path)|
  }

  function ReplacePosition(ds: seq<Data>, s: Statement): Call
    requires Replaces(ds, s)
  {
    Replace(s.item, s.tree, s.path, Match(Without(ds, s.item), s.tree, s.path, Key(s.name)))
  }

  /** A replacement by key overwrites the old name of the item, if it has one, and does not free it. */
  function LeakOf(ds: seq<Data>, s: Statement): nat {
    if Replaces(ds, s) && ds[s.item].name.Key? then 1 else 0
  }

  function WithName(ds: seq<Data>, item: nat, name: string): seq<Data>
    requires item < |ds|
  {
    ds[item := ds[item].(name := Key(StringText.CString(name)))]
  }

  /** One statement on documents: a new value is added at the end; a call by key acts on the first match; an item
      that is added to an object gets the key for its name. */
  ghost predicate Effect(ds: seq<Data>, s: Statement, ds': seq<Data>) {
    match s
    case Make(call) => DataStep(ds, call, ds')
    case New(v) =>
      if Leaf(v) then |ds'| == |ds| + 1 && ds'[..|ds|] == ds && Means(ds'[|ds|], v) && ds'[|ds|].name == NoKey
      else ds' == ds
    case AddKey(item, tree, path, name) =>
      var c := Append(item, tree, path);
      if DataFits(ds, c) then DataStep(WithName(ds, item, name), c, ds') else ds' == ds
    case DetachKey(tree, path, _) =>
      if DataNamed(ds, tree, path) then DataStep(ds, ByPosition(ds, s), ds') else ds' == ds
    case DeleteKey(tree, path, _) =>
      if DataNamed(ds, tree, path) then DataStep(ds, ByPosition(ds, s), ds') else ds' == ds
    case ReplaceKey(item, _, _, name) =>
      if Replaces(ds, s) then DataStep(WithName(ds, item, name), ReplacePosition(ds, s), ds') else ds' == ds
  }

  /** The same on the trees that hold the documents: no node is copied. */
  ghost predicate Moves(ds: seq<Data>, f: seq<Tree>, s: Statement, f': seq<Tree>) {
    match s
    case Make(call) => Step(f, call, f')
    case New(v) => if Leaf(v) then |f'| == |f| + 1 && f'[..|f|] == f else f' == f
    case AddKey(item, tree, path, name) =>
      var c := Append(item, tree, path);
      if Fits(f, c) then exists p :: Step(f[item := Renamed(f[item], p)], c, f') else f' == f
    case DetachKey(tree, path, _) => if DataNamed(ds, tree, path) then Step(f, ByPosition(ds, s), f') else f' == f
    case DeleteKey(tree, path, _) => if DataNamed(ds, tree, path) then Step(f, ByPosition(ds, s), f') else f' == f
    case ReplaceKey(item, _, _, _) =>
      if Replaces(ds, s) && item < |f| then exists p :: Step(f[item := Renamed(f[item], p)], ReplacePosition(ds, s), f')
      else f' == f
  }

  /** From memory m to memory m' the statement has changed the trees and the documents as it says. */
  ghost predicate Done(m: Mem, m': Mem, f: seq<Tree>, s: Statement, f': seq<Tree>) {
    Moves(DataAll(m, f), f, s, f') && Effect(DataAll(m, f), s, DataAll(m', f'))
  }

  /** Every text that is parsed is definite. */
  ghost predicate DefiniteIn(s: Statement) { s.Make? ==> Definite(s.call) }

  /** The memory m with n more strings, which nothing owns. */
  ghost predicate Leaks(m: Mem, m': Mem, n: nat) {
    && m' == m.(strings := m'.strings, top := m'.top) && |m'.strings| == |m.strings| + n
    && forall s <- m.strings :: s in m'.strings && m'.strings[s] == m.strings[s]
  }

  // ---- new values ----

  lemma NewStep(m0: Mem, m: Mem, m': Mem, f: seq<Tree>, t: Tree, v: Value)
    requires Since(m0, m, f) && Made(m, m', t, v) && t.addr.Own? && Cells(t) == {t.addr}
    ensures Since(m0, m', f + [t]) && Kept(m, m', f)
  {
    KeptSame(m0, m, f);
    SameForest(m.nodes, m'.nodes, f);
    OneTreeMore(m'.nodes, f, t);
    ValueIsPlain(m', t, v);
    ParseBeside(m0, m, m', CellsAll(f), TextsAll(f), Cells(t), Texts(t));
    NewPools(m0.pools, m.pools, CellsAll(f), t.addr);
  }

  lemma NewPools(pools0: map<int, Pool>, pools: map<int, Pool>, cells: set<Ptr>, n: Ptr)
    requires PoolsSince(pools0, pools, cells) && n.Own?
    ensures PoolsSince(pools0, pools, cells + {n})
  {
    forall q ensures HasMember(cells + {n}, q) <==> HasMember(cells, q) {
      if k :| k in cells + {n} && InPool(k, q) {
        assert k in cells;
      }
      if k :| k in cells && InPool(k, q) {
        assert k in cells + {n};
      }
    }
  }

  lemma NewEffect(m: Mem, m': Mem, f: seq<Tree>, t: Tree, v: Value)
    requires Leaf(v) && Kept(m, m', f) && Made(m, m', t, v) && Cells(t) == {t.addr}
    ensures Effect(DataAll(m, f), New(v), DataAll(m', f + [t]))
    ensures forall ds :: Moves(ds, f, New(v), f + [t])
  {
    FrameData(m, m', f);
    AppendData(m', f, t);
    ValueIsPlain(m', t, v);
    IsMeans(m', t, v);
    var ds := DataAll(m', f);
    assert (ds + [DataOf(m', t)])[..|f|] == ds;
  }

  method DoNew(h: Heap, roots: seq<Ptr>, s: Statement, ghost m0: Mem, ghost f: seq<Tree>)
    returns (roots': seq<Ptr>, ghost f': seq<Tree>)
    requires h.Valid() && Consistent(m0) && Since(m0, h.View(), f) && Pointers(roots, f) && s.New?
    modifies h`nodes, h`strings, h`pools, h`top, h`live, h`used, h`free
    ensures h.Valid() && Since(m0, h.View(), f') && Pointers(roots', f')
    ensures Done(old(h.View()), h.View(), f, s, f')
  {
    roots', f' := roots, f;
    if Leaf(s.value) {
      var c;
      ghost var t;
      c, t := Create(h, s.value);
      NewStep(m0, old(h.View()), h.View(), f, t, s.value);
      NewEffect(old(h.View()), h.View(), f, t, s.value);
      roots', f' := roots + [c], f + [t];
    }
  }

  // ---- adding by key ----

  lemma RenamedForest(m: Mem, m': Mem, f: seq<Tree>, item: nat, p: int, text: string)
    requires Forest(m.nodes, f) && CellsAll(f) <= m.live && TextsAll(f) <= m.strings.Keys && item < |f|
    requires Renames(m, m', f[item], p, text)
    ensures var f' := f[item := Renamed(f[item], p)];
            && Forest(m'.nodes, f') && CellsAll(f') == CellsAll(f)
            && TextsAll(f') == TextsAll(f) - RefSet(f[item].name) + {p}
  {
    var g, t := Without(f, item), f[item];
    var t' := Renamed(t, p);
    Others(m.nodes, f, item);
    TreeOf(m.nodes, f, item);
    RenamedIsMine(m, m', t, p, text);
    NameSwapped(t, p);
    assert t.addr in Cells(t);
    OwnedExist(m.nodes, g);
    SameForest(m.nodes, m'.nodes, g);
    PutIn(m'.nodes, f, item, t');
    RenamedRoots(m, m', f, item, p, text);
    RenamedSets(TextsAll(f), TextsAll(g), Texts(t), RefSet(t.name), p);
  }

  lemma RenamedSets(all: set<int>, others: set<int>, t: set<int>, name: set<int>, p: int)
    requires all == others + t && others !! t && name <= t && p !in all
    ensures others + (t - name + {p}) == all - name + {p}
  {
  }

  lemma RenamedRoots(m: Mem, m': Mem, f: seq<Tree>, item: nat, p: int, text: string)
    requires RootsOf(m.nodes, f) && item < |f| && Renames(m, m', f[item], p, text)
    ensures RootsOf(m'.nodes, f[item := Renamed(f[item], p)])
  {
    var f' := f[item := Renamed(f[item], p)];
    forall i | 0 <= i < |f'| ensures RootAt(m'.nodes, f', i) {
      assert RootAt(m.nodes, f, i);
    }
  }

  /** The tree has its new name, and of its old one `gone` has been freed: all else is as it was. */
  ghost predicate GivenName(m: Mem, m': Mem, t: Tree, p: int, text: string, gone: set<int>) {
    && Renames(m, m', t, p, text) && m'.strings == (m.strings - gone)[p := text] && gone <= RefSet(t.name)
    && m'.pools == m.pools
  }

  /** The memory m0 with these strings of m, which nothing owns any more. */
  ghost function Keeping(m0: Mem, m: Mem, lost: set<int>): Mem {
    m0.(strings := m0.strings + (map s | s in lost && s in m.strings :: m.strings[s]),
        top := if m0.top < m.top then m.top else m0.top)
  }

  lemma KeepingConsistent(m0: Mem, m: Mem, lost: set<int>)
    requires Consistent(m0) && Bounds(m)
    ensures Consistent(Keeping(m0, m, lost))
  {
    var m1 := Keeping(m0, m, lost);
    forall n <- m1.live ensures Placed(m1, n) {
      assert Placed(m0, n);
    }
    forall p <- m1.pools ensures PoolOk(m1, p) {
      assert PoolOk(m0, p);
    }
  }

  lemma NameStep(m0: Mem, m: Mem, m': Mem, f: seq<Tree>, item: nat, p: int, text: string, gone: set<int>)
    requires Since(m0, m, f) && item < |f| && GivenName(m, m', f[item], p, text, gone)
    ensures Since(Keeping(m0, m', RefSet(f[item].name) - gone), m', f[item := Renamed(f[item], p)])
  {
    var f' := f[item := Renamed(f[item], p)];
    TreeOf(m.nodes, f, item);
    assert f[item].addr in Cells(f[item]) && RefSet(f[item].name) <= Texts(f[item]);
    assert TextsAll(f) <= m.strings.Keys;
    RenamedForest(m, m', f, item, p, text);
    NameBeside(m0, m, m', CellsAll(f), TextsAll(f), f[item], p, text, gone);
  }

  lemma NameBeside(m0: Mem, m: Mem, m': Mem, cells: set<Ptr>, texts: set<int>, t: Tree, p: int, text: string,
                   gone: set<int>)
    requires Beside(m0, m, cells, texts) && GivenName(m, m', t, p, text, gone) && t.addr in cells
    requires RefSet(t.name) <= texts
    ensures Beside(Keeping(m0, m', RefSet(t.name) - gone), m', cells, texts - RefSet(t.name) + {p})
  {
    var m1, lost := Keeping(m0, m', RefSet(t.name) - gone), RefSet(t.name) - gone;
    assert m'.strings.Keys == m.strings.Keys - gone + {p};
    assert m1.strings.Keys == m0.strings.Keys + lost;
    forall s <- m1.strings ensures s in m'.strings && m'.strings[s] == m1.strings[s] {
      if s in m0.strings {
        assert s in m.strings && s !in texts;
      }
    }
  }

  lemma NameData(m0: Mem, m: Mem, m': Mem, f: seq<Tree>, item: nat, p: int, name: string, gone: set<int>)
    requires Since(m0, m, f) && item < |f| && GivenName(m, m', f[item], p, StringText.CString(name), gone)
    ensures DataAll(m', f[item := Renamed(f[item], p)]) == WithName(DataAll(m, f), item, name)
  {
    var t, text := f[item], StringText.CString(name);
    ItemAside(m0, m, f, item);
    NamedAside(m, m', Without(f, item), t, p, text, gone);
    NamedItself(m, m', t, p, text, gone);
    FrameData(m, m', Without(f, item));
    DataAt(m, f, item);
    OneChanged(m, m', f, item, Renamed(t, p));
  }

  lemma ItemAside(m0: Mem, m: Mem, f: seq<Tree>, item: nat)
    requires Since(m0, m, f) && item < |f|
    ensures var g, t := Without(f, item), f[item];
            && Kept(m, m, g) && Kept(m, m, [t]) && Disjoint(t)
            && t.addr !in CellsAll(g) && RefSet(t.name) !! TextsAll(g)
  {
    Others(m.nodes, f, item);
    TreeOf(m.nodes, f, item);
    KeptSame(m0, m, f);
    Single(m.nodes, f[item]);
    assert f[item].addr in Cells(f[item]) && RefSet(f[item].name) <= Texts(f[item]);
  }

  lemma OneChanged(m: Mem, m': Mem, f: seq<Tree>, item: nat, t': Tree)
    requires item < |f| && DataAll(m', Without(f, item)) == DataAll(m, Without(f, item))
    ensures DataAll(m', f[item := t']) == DataAll(m, f)[item := DataOf(m', t')]
  {
    UpdateData(m', f, item, t');
    forall j | 0 <= j < |f| && j != item ensures DataAll(m', f)[j] == DataAll(m, f)[j] {
      OtherData(m, m', f, item, j);
    }
  }

  lemma OtherData(m: Mem, m': Mem, f: seq<Tree>, item: nat, j: nat)
    requires item < |f| && j < |f| && j != item && DataAll(m', Without(f, item)) == DataAll(m, Without(f, item))
    ensures DataAll(m', f)[j] == DataAll(m, f)[j]
  {
    var k := if j < item then j else j - 1;
    DataAt(m, f, j);
    DataAt(m', f, j);
    DataAt(m, Without(f, item), k);
    DataAt(m', Without(f, item), k);
  }

  /** The other trees hold what they held. */
  lemma NamedAside(m: Mem, m': Mem, g: seq<Tree>, t: Tree, p: int, text: string, gone: set<int>)
    requires GivenName(m, m', t, p, text, gone) && Kept(m, m, g)
    requires t.addr !in CellsAll(g) && RefSet(t.name) !! TextsAll(g)
    ensures Kept(m, m', g)
  {
  }

  /** The tree holds what it held, but for the name of its root. */
  lemma NamedItself(m: Mem, m': Mem, t: Tree, p: int, text: string, gone: set<int>)
    requires GivenName(m, m', t, p, text, gone) && Kept(m, m, [t]) && Disjoint(t)
    ensures DataOf(m', Renamed(t, p)) == DataOf(m, t).(name := Key(text))
  {
    assert [t][1..] == [] && [t][0] == t;
    assert t.addr in Cells(t) && RefSet(t.text) <= Texts(t);
    FrameData(m, m', t.kids);
  }

  /** The item has its new name: f1 are the trees now, and m1 is m0 with what has leaked. */
  ghost predicate Given(m0: Mem, m: Mem, m': Mem, f: seq<Tree>, item: nat, name: string, free: bool, f1: seq<Tree>,
                        m1: Mem)
    requires item < |f|
  {
    forall part :: GivenPart(part, m0, m, m', f, item, name, free, f1, m1)
  }

  ghost predicate GivenPart(part: int, m0: Mem, m: Mem, m': Mem, f: seq<Tree>, item: nat, name: string, free: bool,
                            f1: seq<Tree>, m1: Mem)
    requires item < |f|
  {
    if part == 0 then Consistent(m1) && Since(m1, m', f1)
    else
      && (exists p :: f1 == f[item := Renamed(f[item], p)])
      && Leaks(m0, m1, if !free && DataAll(m, f)[item].name.Key? then 1 else 0)
      && DataAll(m', f1) == WithName(DataAll(m, f), item, name)
  }

  /** The new name of an item: `free` says whether its old one is freed first. */
  method GiveName(h: Heap, roots: seq<Ptr>, item: nat, name: string, free: bool, ghost m0: Mem, ghost f: seq<Tree>)
    returns (ghost f1: seq<Tree>, ghost m1: Mem)
    requires h.Valid() && Consistent(m0) && Since(m0, h.View(), f) && Pointers(roots, f) && item < |f|
    modifies h`nodes, h`strings, h`top
    ensures h.Valid() && Pointers(roots, f1) && Given(m0, old(h.View()), h.View(), f, item, name, free, f1, m1)
  {
    var p;
    ghost var gone;
    p, gone := StoreName(h, roots[item], name, free, m0, f, item);
    f1, m1 := NameGiven(m0, old(h.View()), h.View(), f, item, p, name, free, gone);
  }

  lemma NameGiven(m0: Mem, m: Mem, m': Mem, f: seq<Tree>, item: nat, p: int, name: string, free: bool, gone: set<int>)
    returns (f1: seq<Tree>, m1: Mem)
    requires Consistent(m0) && Bounds(m') && Since(m0, m, f) && item < |f|
    requires GivenName(m, m', f[item], p, StringText.CString(name), gone)
    requires gone == if free then RefSet(f[item].name) else {}
    ensures f1 == f[item := Renamed(f[item], p)] && Given(m0, m, m', f, item, name, free, f1, m1)
  {
    f1, m1 := f[item := Renamed(f[item], p)], Keeping(m0, m', RefSet(f[item].name) - gone);
    NameStep(m0, m, m', f, item, p, StringText.CString(name), gone);
    NameData(m0, m, m', f, item, p, name, gone);
    KeepingConsistent(m0, m', RefSet(f[item].name) - gone);
    NameLeaks(m0, m, m', f, item, p, StringText.CString(name), gone);
    NameIsOurs(m0, m, f, item);
    forall part ensures GivenPart(part, m0, m, m', f, item, name, free, f1, m1) {
    }
  }

  method StoreName(h: Heap, n: Ptr, name: string, free: bool, ghost m0: Mem, ghost f: seq<Tree>, ghost item: nat)
    returns (p: int, ghost gone: set<int>)
    requires h.Valid() && Since(m0, h.View(), f) && item < |f| && n == f[item].addr
    modifies h`nodes, h`strings, h`top
    ensures h.Valid() && GivenName(old(h.View()), h.View(), f[item], p, StringText.CString(name), gone)
    ensures gone == if free then RefSet(f[item].name) else {}
  {
    ItemIsMine(m0, h.View(), f, item);
    gone := if free then RefSet(f[item].name) else {};
    if free {
      p := Rename(h, n, name, f[item]);
    } else {
      p := OverwriteName(h, n, name, f[item]);
    }
  }

  method OverwriteName(h: Heap, n: Ptr, name: string, ghost t: Tree) returns (p: int)
    requires h.Valid() && n == t.addr && n in h.live
    modifies h`nodes, h`strings, h`top
    ensures h.Valid() && GivenName(old(h.View()), h.View(), t, p, StringText.CString(name), {})
  {
    p := SetName(h, n, name, t);
    NameOver(old(h.View()), h.View(), t, p, StringText.CString(name));
  }

  lemma ItemIsMine(m0: Mem, m: Mem, f: seq<Tree>, item: nat)
    requires Since(m0, m, f) && item < |f|
    ensures Mine(m, f[item]) && f[item].addr in m.live && f[item].addr in m.nodes
  {
    TreeOf(m.nodes, f, item);
    assert f[item].addr in Cells(f[item]);
  }

  lemma NameOver(m: Mem, m': Mem, t: Tree, p: int, text: string)
    requires Bounds(m) && t.addr in m.nodes && m'.live == m.live && m'.pools == m.pools && p == m.top
    requires m'.nodes == m.nodes[t.addr := m.nodes[t.addr].(name := Ref(p))] && m'.strings == m.strings[p := text]
    ensures GivenName(m, m', t, p, text, {})
  {
    assert m.strings - {} == m.strings;
  }

  lemma NameLeaks(m0: Mem, m: Mem, m': Mem, f: seq<Tree>, item: nat, p: int, text: string, gone: set<int>)
    requires Since(m0, m, f) && item < |f| && GivenName(m, m', f[item], p, text, gone)
    requires gone == RefSet(f[item].name) || gone == {}
    ensures var lost := RefSet(f[item].name) - gone;
            Leaks(m0, Keeping(m0, m', lost), if gone == {} && DataAll(m, f)[item].name.Key? then 1 else 0)
  {
    NameIsOurs(m0, m, f, item);
    LostStrings(m0.strings, m'.strings, RefSet(f[item].name) - gone);
  }

  lemma NameIsOurs(m0: Mem, m: Mem, f: seq<Tree>, item: nat)
    requires Since(m0, m, f) && item < |f|
    ensures RefSet(f[item].name) <= m.strings.Keys && RefSet(f[item].name) !! m0.strings.Keys
    ensures DataAll(m, f)[item].name.Key? <==> f[item].name.Ref?
  {
    TreeOf(m.nodes, f, item);
    DataAt(m, f, item);
    assert RefSet(f[item].name) <= Texts(f[item]);
  }

  lemma LostStrings(strings0: map<int, string>, strings: map<int, string>, lost: set<int>)
    requires lost <= strings.Keys && lost !! strings0.Keys
    ensures var strings1 := strings0 + (map s | s in lost && s in strings :: strings[s]);
            |strings1| == |strings0| + |lost| && forall s <- strings0 :: s in strings1 && strings1[s] == strings0[s]
  {
    var more := map s | s in lost && s in strings :: strings[s];
    assert more.Keys == lost;
    MapSum(strings0, more);
  }

  lemma MapSum(a: map<int, string>, b: map<int, string>)
    requires a.Keys !! b.Keys
    ensures |a + b| == |a| + |b.Keys|
  {
    assert (a + b).Keys == a.Keys + b.Keys;
    assert |(a + b).Keys| == |a.Keys| + |b.Keys|;
  }

  /** cJSON_AddItemToObject: the name is freed, the key copied, and the item appended. */
  method DoAddKey(h: Heap, roots: seq<Ptr>, s: Statement, ghost m0: Mem, ghost f: seq<Tree>)
    returns (roots': seq<Ptr>, ghost f': seq<Tree>, ghost m1: Mem)
    requires h.Valid() && Consistent(m0) && Since(m0, h.View(), f) && Pointers(roots, f) && s.AddKey?
    modifies h`nodes, h`strings, h`top
    ensures h.Valid() && Consistent(m1) && Since(m1, h.View(), f') && Pointers(roots', f') && Leaks(m0, m1, 0)
    ensures Done(old(h.View()), h.View(), f, s, f')
  {
    roots', f', m1 := roots, f, m0;
    FitsData(h.View(), f, Append(s.item, s.tree, s.path));
    if s.item < |roots| {
      Others(h.nodes, f, s.item);
      PointersWithout(roots, f, s.item);
      var list := FindList(h, Without(roots, s.item), s.tree, s.path, m0, f, Without(f, s.item));
      if list != Nil {
        ghost var f1;
        f1, m1 := GiveName(h, roots, s.item, s.name, true, m0, f);
        ghost var m := h.View();
        assert forall part :: GivenPart(part, m0, old(h.View()), m, f, s.item, s.name, true, f1, m1);
        assert GivenPart(0, m0, old(h.View()), m, f, s.item, s.name, true, f1, m1);
        assert GivenPart(1, m0, old(h.View()), m, f, s.item, s.name, true, f1, m1);
        roots', f' := DoAppend(h, roots, s.item, s.tree, s.path, m1, f1);
        StepData(m, h.View(), f1, Append(s.item, s.tree, s.path), f');
      }
    }
  }

  // ---- calls by key ----

  lemma NamesAreKeys(m: Mem, ts: seq<Tree>)
    ensures Names(DataAll(m, ts)) == Keys(m, ts)
  {
    var ks, ls := Names(DataAll(m, ts)), Keys(m, ts);
    forall i | 0 <= i < |ts| ensures ks[i] == ls[i] {
      DataAt(m, ts, i);
    }
  }

  /** The walk to the list, and the loop to the first child with the key: the call by position, if there is a list. */
  method Resolve(h: Heap, roots: seq<Ptr>, s: Statement, ghost m0: Mem, ghost f: seq<Tree>)
    returns (found: bool, c: Call)
    requires h.Valid() && Since(m0, h.View(), f) && Pointers(roots, f) && (s.DetachKey? || s.DeleteKey?)
    ensures found <==> DataNamed(DataAll(h.View(), f), s.tree, s.path)
    ensures found ==> c == ByPosition(DataAll(h.View(), f), s)
  {
    var list := FindList(h, roots, s.tree, s.path, m0, f, f);
    NamedData(h.View(), f, s.tree, s.path);
    found, c := list != Nil, Delete(0);
    if found {
      var i, child := FindItem(h, list, s.key, Sub(f[s.tree], s.path));
      NamesAreKeys(h.View(), Sub(f[s.tree], s.path).kids);
      c := if s.DetachKey? then Detach(s.tree, s.path, i) else DeleteItem(s.tree, s.path, i);
    }
  }

  method DoByKey(h: Heap, roots: seq<Ptr>, s: Statement, ghost m0: Mem, ghost f: seq<Tree>)
    returns (roots': seq<Ptr>, ghost f': seq<Tree>)
    requires h.Valid() && Consistent(m0) && Since(m0, h.View(), f) && Pointers(roots, f)
    requires s.DetachKey? || s.DeleteKey?
    modifies h`nodes, h`strings, h`pools, h`live, h`used, h`free, h`freed, h`destroyed
    ensures h.Valid() && Since(m0, h.View(), f') && Pointers(roots', f')
    ensures Done(old(h.View()), h.View(), f, s, f')
  {
    roots', f' := roots, f;
    var found, c := Resolve(h, roots, s, m0, f);
    if found {
      roots', f' := DoOnLists(h, roots, c, m0, f);
      StepData(old(h.View()), h.View(), f, c, f');
    }
  }

  /** The walk to the object and the loop to the first child with the key. */
  method FindReplaced(h: Heap, roots: seq<Ptr>, s: Statement, ghost m0: Mem, ghost f: seq<Tree>)
    returns (found: bool, i: nat)
    requires h.Valid() && Since(m0, h.View(), f) && Pointers(roots, f) && s.ReplaceKey? && s.item < |f|
    ensures found <==> Replaces(DataAll(h.View(), f), s)
    ensures found ==> ReplacePosition(DataAll(h.View(), f), s) == Replace(s.item, s.tree, s.path, i)
  {
    ghost var g := Without(f, s.item);
    Others(h.nodes, f, s.item);
    PointersWithout(roots, f, s.item);
    ItemNamedData(h.View(), f, s.item, s.tree, s.path);
    NamedData(h.View(), g, s.tree, s.path);
    var list := FindList(h, Without(roots, s.item), s.tree, s.path, m0, f, g);
    found, i := false, 0;
    if list != Nil {
      var child;
      i, child := FindItem(h, list, Key(s.name), Sub(g[s.tree], s.path));
      NamesAreKeys(h.View(), Sub(g[s.tree], s.path).kids);
      found := child != Nil;
    }
  }

  /** cJSON_ReplaceItemInObject: the key is copied over the old name, and the item takes the place of the child. */
  method DoReplaceKey(h: Heap, roots: seq<Ptr>, s: Statement, ghost m0: Mem, ghost f: seq<Tree>)
    returns (roots': seq<Ptr>, ghost f': seq<Tree>, ghost m1: Mem)
    requires h.Valid() && Consistent(m0) && Since(m0, h.View(), f) && Pointers(roots, f) && s.ReplaceKey?
    modifies h`nodes, h`strings, h`pools, h`top, h`live, h`used, h`free, h`freed, h`destroyed
    ensures h.Valid() && Consistent(m1) && Since(m1, h.View(), f') && Pointers(roots', f')
    ensures Done(old(h.View()), h.View(), f, s, f') && Leaks(m0, m1, LeakOf(DataAll(old(h.View()), f), s))
  {
    roots', f', m1 := roots, f, m0;
    if s.item < |roots| {
      var found, i := FindReplaced(h, roots, s, m0, f);
      if found {
        ghost var f1;
        f1, m1 := GiveName(h, roots, s.item, s.name, false, m0, f);
        ghost var m := h.View();
        assert forall part :: GivenPart(part, m0, old(h.View()), m, f, s.item, s.name, false, f1, m1);
        assert GivenPart(0, m0, old(h.View()), m, f, s.item, s.name, false, f1, m1);
        assert GivenPart(1, m0, old(h.View()), m, f, s.item, s.name, false, f1, m1);
        roots', f' := DoReplace(h, roots, s.item, s.tree, s.path, i, m1, f1);
        StepData(m, h.View(), f1, Replace(s.item, s.tree, s.path, i), f');
      }
    }
  }

  // ---- the program ----

  /** One statement; one that names nothing is not executed. The memory m1 is m0 with what the statement leaks. */
  method Execute(h: Heap, roots: seq<Ptr>, s: Statement, ghost m0: Mem, ghost f: seq<Tree>)
    returns (roots': seq<Ptr>, ghost f': seq<Tree>, ghost m1: Mem)
    requires h.Valid() && Consistent(m0) && Since(m0, h.View(), f) && Pointers(roots, f) && DefiniteIn(s)
    modifies h
    ensures h.Valid() && Consistent(m1) && Since(m1, h.View(), f') && Pointers(roots', f')
    ensures Done(old(h.View()), h.View(), f, s, f') && Leaks(m0, m1, LeakOf(DataAll(old(h.View()), f), s))
  {
    m1 := m0;
    match s {
      case Make(call) => roots', f' := Do(h, roots, call, m0, f);
      case New(_) => roots', f' := DoNew(h, roots, s, m0, f);
      case AddKey(_, _, _, _) => roots', f', m1 := DoAddKey(h, roots, s, m0, f);
      case DetachKey(_, _, _) => roots', f' := DoByKey(h, roots, s, m0, f);
      case DeleteKey(_, _, _) => roots', f' := DoByKey(h, roots, s, m0, f);
      case ReplaceKey(_, _, _, _) => roots', f', m1 := DoReplaceKey(h, roots, s, m0, f);
    }
  }

  /** The trees a program holds, and the documents in them. */
  datatype Moment = Moment(trees: seq<Tree>, documents: seq<Data>)

  /** Between two neighbouring moments of a run lies one statement. */
  ghost predicate StepAt(ms: seq<Moment>, program: seq<Statement>, i: nat)
    requires i < |program| && i + 1 < |ms|
  {
    && Moves(ms[i].documents, ms[i].trees, program[i], ms[i + 1].trees)
    && Effect(ms[i].documents, program[i], ms[i + 1].documents)
  }

  /** The strings that the first n statements leak. */
  function LeakAll(ms: seq<Moment>, program: seq<Statement>, n: nat): nat
    requires n <= |program| && n <= |ms|
  {
    if n == 0 then 0 else LeakAll(ms, program, n - 1) + LeakOf(ms[n - 1].documents, program[n - 1])
  }

  /** The moments of a run, from memory m to memory m'. */
  ghost predicate History(m: Mem, f: seq<Tree>, ms: seq<Moment>, program: seq<Statement>, m': Mem, f': seq<Tree>) {
    && |ms| == |program| + 1 && ms[0] == Moment(f, DataAll(m, f)) && ms[|program|] == Moment(f', DataAll(m', f'))
    && forall i | 0 <= i < |program| :: StepAt(ms, program, i)
  }

  lemma HistoryGrows(m: Mem, f: seq<Tree>, ms: seq<Moment>, program: seq<Statement>, i: nat, m1: Mem, f1: seq<Tree>,
                     m2: Mem, f2: seq<Tree>)
    requires i < |program| && History(m, f, ms, program[..i], m1, f1)
    requires Done(m1, m2, f1, program[i], f2)
    ensures History(m, f, ms + [Moment(f2, DataAll(m2, f2))], program[..i + 1], m2, f2)
  {
    var more, part := ms + [Moment(f2, DataAll(m2, f2))], program[..i + 1];
    forall j | 0 <= j < i + 1 ensures StepAt(more, part, j) {
      assert j < i ==> StepAt(ms, program[..i], j);
    }
  }

  lemma {:induction false} SameLeaks(ms: seq<Moment>, more: seq<Moment>, program: seq<Statement>, part: seq<Statement>,
                                     n: nat)
    requires n <= |program| && n <= |ms| && n <= |more| && n <= |part|
    requires forall j | 0 <= j < n :: ms[j] == more[j] && program[j] == part[j]
    ensures LeakAll(more, part, n) == LeakAll(ms, program, n)
  {
    if n > 0 {
      SameLeaks(ms, more, program, part, n - 1);
    }
  }

  lemma LeaksGrow(m: Mem, ms: seq<Moment>, program: seq<Statement>, i: nat, m1: Mem, last: Moment, m2: Mem)
    requires i < |program| && |ms| == i + 1 && Leaks(m, m1, LeakAll(ms, program[..i], i))
    requires Leaks(m1, m2, LeakOf(ms[i].documents, program[i]))
    ensures Leaks(m, m2, LeakAll(ms + [last], program[..i + 1], i + 1))
  {
    SameLeaks(ms, ms + [last], program[..i], program[..i + 1], i);
  }

  /** A pool that was not there at the beginning is in use exactly as long as a node of the forest lies in it,
      counts these nodes, and has otherwise been destroyed, once. */
  ghost predicate PoolLife(h: Heap, m0: Mem, f: seq<Tree>, q: int)
    reads h
  {
    && (q in h.pools <==> HasMember(CellsAll(f), q)) && h.destroyed[q] == (if q in h.pools then 0 else 1)
    && (q in h.pools ==> h.pools[q].refcount == |set n | n in CellsAll(f) && InPool(n, q)|)
  }

  lemma PoolsLive(h: Heap, m0: Mem, f: seq<Tree>, q: int)
    requires h.Valid() && Consistent(m0) && Since(m0, h.View(), f) && q in h.created && q !in m0.pools
    ensures PoolLife(h, m0, f, q)
  {
    assert Balance(h.created, h.pools.Keys, h.destroyed, q);
    if q in h.pools {
      PoolCounts(m0, h.View(), f, q);
    } else {
      forall n <- CellsAll(f) ensures !InPool(n, q) {
        PlacedInPool(h.View(), n);
      }
    }
  }

  /** Any series of statements. At its end, as at the end of every part of it, the trees the program holds are well
      linked and share nothing, and hold the documents that the statements make; what else is in use is what was in
      use before, and as many strings as the statements leak; and every pool has the life it should have. */
  method Run(h: Heap, roots: seq<Ptr>, program: seq<Statement>, ghost m0: Mem, ghost f: seq<Tree>)
    returns (roots': seq<Ptr>, ghost f': seq<Tree>, ghost ms: seq<Moment>, ghost m1: Mem)
    requires h.Valid() && Consistent(m0) && Since(m0, h.View(), f) && Pointers(roots, f)
    requires forall i | 0 <= i < |program| :: DefiniteIn(program[i])
    modifies h
    ensures h.Valid() && Consistent(m1) && Since(m1, h.View(), f') && Pointers(roots', f')
    ensures History(old(h.View()), f, ms, program, h.View(), f') && Leaks(m0, m1, LeakAll(ms, program, |program|))
    ensures forall q <- h.created | q !in m0.pools :: PoolLife(h, m0, f', q)
  {
    roots', f', ms, m1 := roots, f, [Moment(f, DataAll(h.View(), f))], m0;
    for i := 0 to |program|
      invariant h.Valid() && Consistent(m1) && Since(m1, h.View(), f') && Pointers(roots', f')
      invariant History(old(h.View()), f, ms, program[..i], h.View(), f')
      invariant Leaks(m0, m1, LeakAll(ms, program[..i], i))
    {
      roots', f', ms, m1 := Next(h, roots', program, i, m0, m1, old(h.View()), f, f', ms);
    }
    assert program[..|program|] == program;
    forall q <- h.created | q !in m0.pools ensures PoolLife(h, m0, f', q) {
      PoolsLive(h, m1, f', q);
    }
  }

  method Next(h: Heap, roots: seq<Ptr>, program: seq<Statement>, i: nat, ghost m0: Mem, ghost m1: Mem, ghost m: Mem,
              ghost f: seq<Tree>, ghost f1: seq<Tree>, ghost ms: seq<Moment>)
    returns (roots': seq<Ptr>, ghost f2: seq<Tree>, ghost ms': seq<Moment>, ghost m2: Mem)
    requires h.Valid() && Consistent(m1) && Since(m1, h.View(), f1) && Pointers(roots, f1) && i < |program|
    requires DefiniteIn(program[i]) && History(m, f, ms, program[..i], h.View(), f1)
    requires Leaks(m0, m1, LeakAll(ms, program[..i], i))
    modifies h
    ensures h.Valid() && Consistent(m2) && Since(m2, h.View(), f2) && Pointers(roots', f2)
    ensures History(m, f, ms', program[..i + 1], h.View(), f2) && Leaks(m0, m2, LeakAll(ms', program[..i + 1], i + 1))
  {
    roots', f2, m2 := Execute(h, roots, program[i], m1, f1);
    ghost var last := Moment(f2, DataAll(h.View(), f2));
    HistoryGrows(m, f, ms, program, i, old(h.View()), f1, h.View(), f2);
    LeaksGrow(m0, ms, program, i, m1, last, m2);
    ms' := ms + [last];
  }

  /** Without a leak, memory is what it was. */
  lemma NothingLeaked(m0: Mem, m1: Mem, m: Mem)
    requires Leaks(m0, m1, 0) && Restored(m1, m)
    ensures Restored(m0, m)
  {
    forall s <- m0.strings.Keys ensures s in m1.strings.Keys {
      assert s in m0.strings && s in m1.strings;
    }
    assert |m1.strings.Keys| == |m1.strings| && |m0.strings.Keys| == |m0.strings|;
    SameSize(m0.strings.Keys, m1.strings.Keys);
    SameStrings(m0.strings, m1.strings);
  }

  lemma SameSize(a: set<int>, b: set<int>)
    requires a <= b && |a| == |b|
    ensures a == b
  {
    assert b == a + (b - a) && |b| == |a| + |b - a|;
  }

  /** A whole program: any series of statements, and the deletion of what it still holds then. The documents it works
      on are those the statements make; every pool made on the way has been destroyed exactly once; and memory is as
      before, but for the strings that the statements leak, one for every replacement by key of an item with a name. */
  method Program(h: Heap, program: seq<Statement>) returns (ghost ms: seq<Moment>, ghost m1: Mem)
    requires h.Valid() && forall i | 0 <= i < |program| :: DefiniteIn(program[i])
    modifies h
    ensures |ms| == |program| + 1 && ms[0] == Moment([], []) && forall i | 0 <= i < |program| :: StepAt(ms, program, i)
    ensures h.Valid() && Restored(m1, h.View()) && Leaks(old(h.View()), m1, LeakAll(ms, program, |program|))
    ensures LeakAll(ms, program, |program|) == 0 ==> Restored(old(h.View()), h.View())
    ensures forall q <- h.created | q !in old(h.created) :: q !in h.pools && h.destroyed[q] == 1
  {
    NoForest(h.View());
    ghost var m0, f := h.View(), [];
    var roots;
    roots, f, ms, m1 := Run(h, [], program, m0, []);
    Finish(h, roots, m1, f);
    if LeakAll(ms, program, |program|) == 0 {
      NothingLeaked(m0, m1, h.View());
    }
    forall q <- h.created | q !in old(h.created) ensures q !in h.pools && h.destroyed[q] == 1 {
      assert Balance(old(h.created), old(h.pools).Keys, old(h.destroyed), q);
      assert Balance(h.created, h.pools.Keys, h.destroyed, q);
    }
  }
}
