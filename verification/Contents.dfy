/** What a tree in memory holds, read without its addresses: the documents that the operations on nodes work on. */
module Contents {
  import opened Sequences
  import opened Json
  import opened Memory
  import opened Trees
  import opened HeapTrees
  import opened ChildLists
  import opened ObjectKeys
  import opened Subtrees
  import Parser

  /** A node with what it owns: type, valuedouble, valuestring, string (the key), and the children. */
  datatype Data = Data(kind: Kind, number: real, text: Key, name: Key, kids: seq<Data>)

  ghost function TextOf(strings: map<int, string>, r: Ref): Key {
    if r.Ref? && r.id in strings then Key(strings[r.id]) else NoKey
  }

  ghost function DataOf(m: Mem, t: Tree): Data {
    var n := if t.addr in m.nodes then m.nodes[t.addr] else ZERO;
    Data(n.kind, n.valuedouble, TextOf(m.strings, t.text), TextOf(m.strings, t.name), DataAll(m, t.kids))
  }

  ghost function DataAll(m: Mem, ts: seq<Tree>): (ds: seq<Data>)
    ensures |ds| == |ts|
  {
    if ts == [] then [] else [DataOf(m, ts[0])] + DataAll(m, ts[1..])
  }

  lemma {:induction false} DataAt(m: Mem, ts: seq<Tree>, i: int)
    requires 0 <= i < |ts|
    ensures DataAll(m, ts)[i] == DataOf(m, ts[i])
    decreases ts
  {
    if i > 0 {
      DataAt(m, ts[1..], i - 1);
    }
  }

  // ---- data and values ----

  /** The data is the value. Of a node that is no string the text does not matter, nor the name outside an object. */
  ghost predicate Means(d: Data, v: Value)
    decreases v
  {
    match v
    case Null => d.kind == Kind.Null && d.kids == []
    case False => d.kind == Kind.False && d.kids == []
    case True => d.kind == Kind.True && d.kids == []
    case Number(x) => d.kind == Kind.Number && d.number == x && d.kids == []
    case String(s) => d.kind == Kind.String && d.text == Key(s) && d.kids == []
    case Array(items) =>
      && d.kind == Kind.Array && |d.kids| == |items|
      && forall i | 0 <= i < |items| :: Means(d.kids[i], items[i])
    case Object(members) =>
      && d.kind == Kind.Object && |d.kids| == |members|
      && forall i | 0 <= i < |members| :: d.kids[i].name == Key(members[i].name) && Means(d.kids[i], members[i].value)
  }

  /** A tree without references is a value exactly if its data is. */
  lemma {:induction false} IsMeans(m: Mem, t: Tree, v: Value)
    requires forall n <- Cells(t) :: n in m.nodes && !m.nodes[n].reference
    ensures Is(m.nodes, m.strings, t, v) <==> Means(DataOf(m, t), v)
    decreases v, 0
  {
    var d := DataOf(m, t);
    assert t.addr in Cells(t);
    match v
    case Array(items) =>
      if |t.kids| == |items| {
        forall i | 0 <= i < |items|
          ensures Is(m.nodes, m.strings, t.kids[i], items[i]) <==> Means(d.kids[i], items[i])
        {
          KidMeans(m, t, i, items[i]);
        }
      }
    case Object(members) =>
      if |t.kids| == |members| {
        forall i | 0 <= i < |members|
          ensures Holds(m.strings, t.kids[i].name, members[i].name) <==> d.kids[i].name == Key(members[i].name)
          ensures Is(m.nodes, m.strings, t.kids[i], members[i].value) <==> Means(d.kids[i], members[i].value)
        {
          KidMeans(m, t, i, members[i].value);
        }
      }
    case _ =>
  }

  lemma {:induction false} KidMeans(m: Mem, t: Tree, i: int, v: Value)
    requires 0 <= i < |t.kids| && forall n <- Cells(t) :: n in m.nodes && !m.nodes[n].reference
    ensures Is(m.nodes, m.strings, t.kids[i], v) <==> Means(DataOf(m, t).kids[i], v)
    ensures DataOf(m, t).kids[i] == DataOf(m, t.kids[i])
    decreases v, 1
  {
    InList(t.kids, i);
    DataAt(m, t.kids, i);
    IsMeans(m, t.kids[i], v);
  }

  // ---- framing ----

  /** The nodes and the strings of these trees hold the same in both memories. */
  ghost predicate SameContents(m: Mem, m': Mem, cells: set<Ptr>, texts: set<int>) {
    && (forall n <- cells :: n in m.nodes && n in m'.nodes && SameData(m.nodes[n], m'.nodes[n]))
    && forall s <- texts :: s in m.strings && s in m'.strings && m'.strings[s] == m.strings[s]
  }

  lemma {:induction false} FrameData(m: Mem, m': Mem, ts: seq<Tree>)
    requires SameContents(m, m', CellsAll(ts), TextsAll(ts))
    ensures DataAll(m', ts) == DataAll(m, ts)
    decreases ts
  {
    if ts == [] {
    } else {
      var t := ts[0];
      assert Cells(t) <= CellsAll(ts) && Texts(t) <= TextsAll(ts);
      assert t.addr in Cells(t) && RefSet(t.text) <= Texts(t) && RefSet(t.name) <= Texts(t);
      FrameData(m, m', t.kids);
      FrameData(m, m', ts[1..]);
    }
  }

  // ---- the operations on data ----

  predicate DataReaches(d: Data, path: seq<nat>)
    decreases |path|
  {
    path == [] || (path[0] < |d.kids| && DataReaches(d.kids[path[0]], path[1..]))
  }

  function DataSub(d: Data, path: seq<nat>): Data
    requires DataReaches(d, path)
    decreases |path|
  {
    if path == [] then d else DataSub(d.kids[path[0]], path[1..])
  }

  function DataPut(d: Data, path: seq<nat>, e: Data): Data
    requires DataReaches(d, path)
    decreases |path|
  {
    if path == [] then e else d.(kids := d.kids[path[0] := DataPut(d.kids[path[0]], path[1..], e)])
  }

  lemma {:induction false} SubData(m: Mem, t: Tree, path: seq<nat>)
    ensures Reaches(t, path) <==> DataReaches(DataOf(m, t), path)
    ensures Reaches(t, path) ==> DataOf(m, Sub(t, path)) == DataSub(DataOf(m, t), path)
    decreases |path|
  {
    if path != [] && path[0] < |t.kids| {
      DataAt(m, t.kids, path[0]);
      SubData(m, t.kids[path[0]], path[1..]);
    }
  }

  lemma {:induction false} PutData(m: Mem, t: Tree, path: seq<nat>, u: Tree)
    requires Reaches(t, path) && DataReaches(DataOf(m, t), path)
    ensures DataOf(m, Put(t, path, u)) == DataPut(DataOf(m, t), path, DataOf(m, u))
    decreases |path|
  {
    if path == [] {
    } else {
      var i := path[0];
      DataAt(m, t.kids, i);
      SubData(m, t.kids[i], path[1..]);
      PutData(m, t.kids[i], path[1..], u);
      UpdateData(m, t.kids, i, Put(t.kids[i], path[1..], u));
    }
  }

  lemma UpdateData(m: Mem, ts: seq<Tree>, i: int, t: Tree)
    requires 0 <= i < |ts|
    ensures DataAll(m, ts[i := t]) == DataAll(m, ts)[i := DataOf(m, t)]
  {
    var us, ds := DataAll(m, ts[i := t]), DataAll(m, ts)[i := DataOf(m, t)];
    forall j | 0 <= j < |us| ensures us[j] == ds[j] {
      DataAt(m, ts, j);
      DataAt(m, ts[i := t], j);
    }
  }

  lemma WithoutData(m: Mem, ts: seq<Tree>, i: int)
    requires 0 <= i < |ts|
    ensures DataAll(m, Without(ts, i)) == Without(DataAll(m, ts), i)
  {
    var us, ds := DataAll(m, Without(ts, i)), Without(DataAll(m, ts), i);
    forall j | 0 <= j < |us| ensures us[j] == ds[j] {
      DataAt(m, Without(ts, i), j);
      DataAt(m, ts, if j < i then j else j + 1);
    }
  }

  lemma AppendData(m: Mem, ts: seq<Tree>, t: Tree)
    ensures DataAll(m, ts + [t]) == DataAll(m, ts) + [DataOf(m, t)]
  {
    var us, ds := DataAll(m, ts + [t]), DataAll(m, ts) + [DataOf(m, t)];
    forall j | 0 <= j < |us| ensures us[j] == ds[j] {
      DataAt(m, ts + [t], j);
      if j < |ts| {
        DataAt(m, ts, j);
      }
    }
  }

  // ---- calls ----

  /** What a program does with its documents. It names a tree by its number among those it holds, a list by
      its tree and the way down to it. A new item is taken out first; `tree` counts the others. */
  datatype Call =
    | Parse(text: string)
    | Append(item: nat, tree: nat, path: seq<nat>)
    | Detach(tree: nat, path: seq<nat>, which: int)
    | Replace(item: nat, tree: nat, path: seq<nat>, which: int)
    | DeleteItem(tree: nat, path: seq<nat>, which: int)
    | Delete(tree: nat)

  predicate Parsable(text: string) { Parser.Parse(text).Done? }

  predicate DataNamed(ds: seq<Data>, tree: nat, path: seq<nat>) { tree < |ds| && DataReaches(ds[tree], path) }

  predicate DataFits(ds: seq<Data>, c: Call) {
    match c
    case Parse(_) => true
    case Append(item, tree, path) => item < |ds| && DataNamed(Without(ds, item), tree, path)
    case Detach(tree, path, _) => DataNamed(ds, tree, path)
    case Replace(item, tree, path, _) => item < |ds| && DataNamed(Without(ds, item), tree, path)
    case DeleteItem(tree, path, _) => DataNamed(ds, tree, path)
    case Delete(tree) => tree < |ds|
  }

  /** The children of the list that is named. */
  function KidsAt(ds: seq<Data>, tree: nat, path: seq<nat>): seq<Data>
    requires DataNamed(ds, tree, path)
  {
    DataSub(ds[tree], path).kids
  }

  /** The documents with other children at the path. */
  function WithKidsAt(ds: seq<Data>, tree: nat, path: seq<nat>, kids: seq<Data>): seq<Data>
    requires DataNamed(ds, tree, path)
  {
    ds[tree := DataPut(ds[tree], path, DataSub(ds[tree], path).(kids := kids))]
  }

  /** The documents after a call that does not parse; a position behind the end of a list does nothing. */
  function DataAfter(ds: seq<Data>, c: Call): seq<Data>
    requires DataFits(ds, c) && !c.Parse?
  {
    match c
    case Append(item, tree, path) =>
      var es := Without(ds, item);
      WithKidsAt(es, tree, path, KidsAt(es, tree, path) + [ds[item]])
    case Detach(tree, path, which) =>
      var kids, i := KidsAt(ds, tree, path), Position(which);
      if i < |kids| then WithKidsAt(ds, tree, path, Without(kids, i)) + [kids[i]] else ds
    case Replace(item, tree, path, which) =>
      var es := Without(ds, item);
      var kids, i := KidsAt(es, tree, path), Position(which);
      if i < |kids| then WithKidsAt(es, tree, path, kids[i := ds[item]]) else ds
    case DeleteItem(tree, path, which) =>
      var kids, i := KidsAt(ds, tree, path), Position(which);
      if i < |kids| then WithKidsAt(ds, tree, path, Without(kids, i)) else ds
    case Delete(tree) => Without(ds, tree)
  }

  /** One call on documents: parsing adds the value of the text, if it has one, without a name at the end; a call
      that names nothing is not made. */
  ghost predicate DataStep(ds: seq<Data>, c: Call, ds': seq<Data>) {
    if !DataFits(ds, c) then ds' == ds
    else if c.Parse? then
      if Parsable(c.text) then
        && |ds'| == |ds| + 1 && ds'[..|ds|] == ds
        && Means(ds'[|ds|], Parser.Parse(c.text).value) && ds'[|ds|].name == NoKey
      else ds' == ds
    else ds' == DataAfter(ds, c)
  }
}
