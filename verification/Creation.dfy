/** The functions that make a value of one node: cJSON_CreateNull to cJSON_CreateObject. */
module Creation {
  import opened Json
  import opened StringText
  import opened Memory
  import opened Heaps
  import opened Trees
  import opened HeapTrees
  import opened ChildLists
  import HeapParser

  /** The nodes and strings of the tree are new; everything that was in use is as it was. */
  ghost predicate Extends(m: Mem, m': Mem, t: Tree) {
    && Cells(t) !! m.live && m'.live == m.live + Cells(t)
    && Texts(t) !! m.strings.Keys && m'.strings.Keys == m.strings.Keys + Texts(t)
    && HeapParser.KeepsNodes(m, m') && (forall s <- m.strings :: m'.strings[s] == m.strings[s]) && m'.pools == m.pools
  }

  /** A new value of its own. */
  ghost predicate Made(m: Mem, m': Mem, t: Tree, v: Value) {
    Extends(m, m', t) && Loose(m', t) && t.name == NoRef && Is(m'.nodes, m'.strings, t, v)
  }

  lemma NodeMade(m: Mem, m': Mem, item: Ptr, node: Node, v: Value)
    requires m.live <= m.nodes.Keys && item != Nil && item !in m.live && m'.live == m.live + {item}
    requires item in m'.nodes && m'.nodes[item] == node && node.next == Nil && node.prev == Nil && node.child == Nil
    requires !node.reference && node.name == NoRef
    requires forall n <- m.live :: n in m'.nodes && m'.nodes[n] == m.nodes[n]
    requires m'.strings.Keys == m.strings.Keys + RefSet(node.valuestring) && RefSet(node.valuestring) !! m.strings.Keys
    requires forall s <- m.strings :: m'.strings[s] == m.strings[s]
    requires m'.pools.Keys == m.pools.Keys && forall p <- m.pools :: m'.pools[p] == m.pools[p]
    requires Is(m'.nodes, m'.strings, Tree(item, node.valuestring, NoRef, []), v)
    ensures Made(m, m', Tree(item, node.valuestring, NoRef, []), v)
  {
    var t := Tree(item, node.valuestring, NoRef, []);
    assert CellsAll(t.kids) == {} && TextsAll(t.kids) == {} && RefSet(t.name) == {};
    assert Cells(t) == {item};
    assert Texts(t) == RefSet(node.valuestring);
    assert NodeOwns(m'.nodes, t);
    assert OwnsAll(m'.nodes, t.kids) && DisjointAll(t.kids);
    assert Mine(m', t);
    SamePoolMap(m.pools, m'.pools);
  }

  lemma SamePoolMap(pools: map<int, Pool>, pools': map<int, Pool>)
    requires pools'.Keys == pools.Keys && forall p <- pools :: pools'[p] == pools[p]
    ensures pools' == pools
  {
    forall p | p in pools' || p in pools ensures p in pools' && p in pools && pools'[p] == pools[p] {
      assert p in pools'.Keys <==> p in pools.Keys;
    }
  }

  /** The values of one node; a string is a C string. */
  predicate Leaf(v: Value) {
    match v
    case String(s) => CString(s) == s
    case Array(items) => items == []
    case Object(members) => members == []
    case _ => true
  }

  function KindOf(v: Value): Kind {
    match v
    case Null => Kind.Null
    case False => Kind.False
    case True => Kind.True
    case Number(_) => Kind.Number
    case String(_) => Kind.String
    case Array(_) => Kind.Array
    case Object(_) => Kind.Object
  }

  /** cJSON_New_Item and the store of `type`, and of `valuedouble` for a number. */
  method CreateNode(h: Heap, kind: Kind, d: real, ghost v: Value) returns (item: Ptr, ghost t: Tree)
    requires h.Valid() && Leaf(v) && !v.String? && kind == KindOf(v) && (v.Number? ==> d == v.d)
    modifies h`nodes, h`pools, h`top, h`live, h`used, h`free
    ensures h.Valid() && item == t.addr && item.Own? && Cells(t) == {item}
    ensures Made(old(h.View()), h.View(), t, v)
  {
    item := h.NewItem(Nil);
    h.Store(item, h.nodes[item].(kind := kind, valuedouble := d));
    t := Tree(item, NoRef, NoRef, []);
    NodeMade(old(h.View()), h.View(), item, h.nodes[item], v);
  }

  method CreateObject(h: Heap) returns (item: Ptr, ghost t: Tree)
    requires h.Valid()
    modifies h`nodes, h`pools, h`top, h`live, h`used, h`free
    ensures h.Valid() && item == t.addr && item.Own? && Cells(t) == {item}
    ensures Made(old(h.View()), h.View(), t, Value.Object([]))
  {
    item, t := CreateNode(h, Kind.Object, 0.0, Value.Object([]));
  }

  method CreateNumber(h: Heap, num: real) returns (item: Ptr, ghost t: Tree)
    requires h.Valid()
    modifies h`nodes, h`pools, h`top, h`live, h`used, h`free
    ensures h.Valid() && item == t.addr && item.Own? && Cells(t) == {item}
    ensures Made(old(h.View()), h.View(), t, Value.Number(num))
  {
    item, t := CreateNode(h, Kind.Number, num, Value.Number(num));
  }

  method CreateString(h: Heap, s: string) returns (item: Ptr, ghost t: Tree)
    requires h.Valid() && CString(s) == s
    modifies h`nodes, h`strings, h`pools, h`top, h`live, h`used, h`free
    ensures h.Valid() && item == t.addr && item.Own? && Cells(t) == {item}
    ensures Made(old(h.View()), h.View(), t, Value.String(s))
  {
    item := h.NewItem(Nil);
    var p := h.NewString(s);
    h.Store(item, h.nodes[item].(kind := Kind.String, valuestring := Ref(p)));
    t := Tree(item, Ref(p), NoRef, []);
    NodeMade(old(h.View()), h.View(), item, h.nodes[item], Value.String(s));
  }

  /** A value of one node, by the function for its type. */
  method Create(h: Heap, v: Value) returns (item: Ptr, ghost t: Tree)
    requires h.Valid() && Leaf(v)
    modifies h`nodes, h`strings, h`pools, h`top, h`live, h`used, h`free
    ensures h.Valid() && item == t.addr && item.Own? && Cells(t) == {item}
    ensures Made(old(h.View()), h.View(), t, v)
  {
    match v {
      case String(s) => item, t := CreateString(h, s);
      case Number(d) => item, t := CreateNumber(h, d);
      case Object(_) => item, t := CreateObject(h);
      case _ => item, t := CreateNode(h, KindOf(v), 0.0, v);
    }
  }
}
