/** The operations on child lists: append, detach, replace, delete, reference, and lookup by position.
    A list of linked nodes is read as the sequence `kids` of a tree. */
module ChildLists {
  import opened Sequences
  import opened Json
  import opened Memory
  import opened Heaps
  import opened Trees
  import opened HeapTrees

  // ---- lists taken apart ----

  lemma {:induction false} Concat(nodes: map<Ptr, Node>, ts: seq<Tree>, us: seq<Tree>)
    ensures CellsAll(ts + us) == CellsAll(ts) + CellsAll(us) && TextsAll(ts + us) == TextsAll(ts) + TextsAll(us)
    ensures OwnsAll(nodes, ts + us) <==> OwnsAll(nodes, ts) && OwnsAll(nodes, us)
    ensures DisjointAll(ts + us)
       <==> DisjointAll(ts) && DisjointAll(us) && CellsAll(ts) !! CellsAll(us) && TextsAll(ts) !! TextsAll(us)
  {
    if ts == [] {
      assert ts + us == us;
    } else {
      assert (ts + us)[1..] == ts[1..] + us;
      Concat(nodes, ts[1..], us);
    }
  }

  lemma Single(nodes: map<Ptr, Node>, t: Tree)
    ensures CellsAll([t]) == Cells(t) && TextsAll([t]) == Texts(t)
    ensures OwnsAll(nodes, [t]) <==> Owns(nodes, t)
    ensures DisjointAll([t]) <==> Disjoint(t)
  {
    assert [t][1..] == [];
  }

  lemma TakeOut(nodes: map<Ptr, Node>, ts: seq<Tree>, i: int)
    requires 0 <= i < |ts| && OwnsAll(nodes, ts) && DisjointAll(ts)
    ensures OwnsAll(nodes, Without(ts, i)) && DisjointAll(Without(ts, i)) && Owns(nodes, ts[i]) && Disjoint(ts[i])
    ensures Cells(ts[i]) !! CellsAll(Without(ts, i)) && Texts(ts[i]) !! TextsAll(Without(ts, i))
    ensures CellsAll(ts) == CellsAll(Without(ts, i)) + Cells(ts[i])
    ensures TextsAll(ts) == TextsAll(Without(ts, i)) + Texts(ts[i])
  {
    var a, t, b := ts[..i], ts[i], ts[i + 1..];
    assert ts == a + ([t] + b);
    Concat(nodes, a, [t] + b);
    Concat(nodes, [t], b);
    Single(nodes, t);
    Concat(nodes, a, b);
  }

  lemma PutIn(nodes: map<Ptr, Node>, ts: seq<Tree>, i: int, t: Tree)
    requires 0 <= i < |ts| && OwnsAll(nodes, Without(ts, i)) && DisjointAll(Without(ts, i)) && Owns(nodes, t)
    requires Disjoint(t)
    requires Cells(t) !! CellsAll(Without(ts, i)) && Texts(t) !! TextsAll(Without(ts, i))
    ensures OwnsAll(nodes, ts[i := t]) && DisjointAll(ts[i := t])
    ensures CellsAll(ts[i := t]) == CellsAll(Without(ts, i)) + Cells(t)
    ensures TextsAll(ts[i := t]) == TextsAll(Without(ts, i)) + Texts(t)
  {
    var a, b := ts[..i], ts[i + 1..];
    assert ts[i := t] == a + ([t] + b);
    Concat(nodes, a, [t] + b);
    Concat(nodes, [t], b);
    Single(nodes, t);
    Concat(nodes, a, b);
  }

  /** No root of a list lies below another one. */
  lemma {:induction false} TopNotBelow(ts: seq<Tree>, i: int, j: int)
    requires DisjointAll(ts) && 0 <= i < |ts| && 0 <= j < |ts|
    ensures ts[j].addr !in CellsAll(ts[i].kids)
  {
    if i == 0 == j {
      assert Disjoint(ts[0]);
    } else if i == 0 {
      DistinctTops(ts, 0, j);
      assert CellsAll(ts[0].kids) <= Cells(ts[0]) && ts[j].addr in Cells(ts[j]);
    } else if j == 0 {
      DistinctTops(ts, 0, i);
      assert CellsAll(ts[i].kids) <= Cells(ts[i]) && ts[0].addr in Cells(ts[0]);
    } else {
      assert ts[1..][i - 1] == ts[i] && ts[1..][j - 1] == ts[j];
      TopNotBelow(ts[1..], i - 1, j - 1);
    }
  }

  /** Pointers to trees. */
  predicate Pointers(ps: seq<Ptr>, ts: seq<Tree>) {
    |ps| == |ts| && forall i | 0 <= i < |ps| :: ps[i] == ts[i].addr
  }

  lemma PointersWithout(ps: seq<Ptr>, ts: seq<Tree>, k: nat)
    requires Pointers(ps, ts) && k < |ts|
    ensures Pointers(Without(ps, k), Without(ts, k))
  {
  }

  // ---- new links ----

  /** Two versions of a node that differ in `next` and `prev` only. */
  predicate Relinked(a: Node, b: Node) { b == a.(next := b.next, prev := b.prev) }

  ghost predicate RelinkedAt(nodes: map<Ptr, Node>, nodes': map<Ptr, Node>, changed: set<Ptr>, ts: seq<Tree>, i: int)
    requires 0 <= i < |ts|
  {
    && changed !! CellsAll(ts[i].kids) && ts[i].addr in nodes && ts[i].addr in nodes'
    && Relinked(nodes[ts[i].addr], nodes'[ts[i].addr])
  }

  lemma {:induction false} RelinkAll(nodes: map<Ptr, Node>, nodes': map<Ptr, Node>, changed: set<Ptr>, ts: seq<Tree>)
    requires OwnsAll(nodes, ts) && forall i | 0 <= i < |ts| :: RelinkedAt(nodes, nodes', changed, ts, i)
    requires forall n <- nodes | n !in changed :: n in nodes' && nodes'[n] == nodes[n]
    ensures OwnsAll(nodes', ts)
  {
    if ts == [] {
    } else {
      assert RelinkedAt(nodes, nodes', changed, ts, 0);
      RelinkTree(nodes, nodes', ts[0]);
      forall i | 0 <= i < |ts| - 1 ensures RelinkedAt(nodes, nodes', changed, ts[1..], i) {
        assert RelinkedAt(nodes, nodes', changed, ts, i + 1) && ts[1..][i] == ts[i + 1];
      }
      RelinkAll(nodes, nodes', changed, ts[1..]);
    }
  }

  // ---- what the operations work on ----

  /** A tree that belongs to the caller: well linked inside, all of it in use. */
  ghost predicate Mine(m: Mem, t: Tree) {
    && Owns(m.nodes, t) && Disjoint(t) && Cells(t) <= m.live && Texts(t) <= m.strings.Keys
  }

  /** A tree that is in no list. */
  ghost predicate Loose(m: Mem, t: Tree) {
    Mine(m, t) && m.nodes[t.addr].next == Nil && m.nodes[t.addr].prev == Nil
  }

  ghost predicate Apart(t: Tree, u: Tree) { Cells(t) !! Cells(u) && Texts(t) !! Texts(u) }

  /** An array or object that owns its child list. */
  ghost predicate List(m: Mem, a: Tree) { Mine(m, a) && !m.nodes[a.addr].reference }

  ghost function WithList(a: Tree, kids: seq<Tree>): Tree { Tree(a.addr, a.text, a.name, kids) }

  /** Only links have changed, and only those of the nodes named. */
  ghost predicate LinksOnly(m: Mem, m': Mem, changed: set<Ptr>) {
    && m'.live == m.live && m'.strings == m.strings && m'.pools == m.pools && m'.nodes.Keys == m.nodes.Keys
    && (forall n <- m.nodes | n !in changed :: m'.nodes[n] == m.nodes[n])
    && (forall n <- m.nodes :: SameData(m.nodes[n], m'.nodes[n]))
  }

  /** Of this node only `child` has changed. */
  ghost predicate OnlyChild(m: Mem, m': Mem, n: Ptr) {
    n in m.nodes && n in m'.nodes && m'.nodes[n] == m.nodes[n].(child := m'.nodes[n].child)
  }

  ghost predicate IsTop(ts: seq<Tree>, n: Ptr) { exists j :: 0 <= j < |ts| && ts[j].addr == n }

  /** New links of roots, and changes outside the list, leave everything below the roots alone. */
  lemma RelinkList(nodes: map<Ptr, Node>, nodes': map<Ptr, Node>, changed: set<Ptr>, ts: seq<Tree>)
    requires OwnsAll(nodes, ts) && DisjointAll(ts)
    requires forall n <- changed :: IsTop(ts, n) || n !in CellsAll(ts)
    requires forall n <- nodes | n !in changed :: n in nodes' && nodes'[n] == nodes[n]
    requires forall n <- CellsAll(ts) :: n in nodes && n in nodes' && Relinked(nodes[n], nodes'[n])
    ensures OwnsAll(nodes', ts)
  {
    forall i | 0 <= i < |ts| ensures RelinkedAt(nodes, nodes', changed, ts, i) {
      InList(ts, i);
      forall n <- changed ensures n !in CellsAll(ts[i].kids) {
        if n in CellsAll(ts) {
          var j :| 0 <= j < |ts| && ts[j].addr == n;
          TopNotBelow(ts, i, j);
        } else {
          assert CellsAll(ts[i].kids) <= Cells(ts[i]);
        }
      }
    }
    RelinkAll(nodes, nodes', changed, ts);
  }

  // ---- append ----

  /** The nodes after `array->child = item`, or after suffix_object. */
  function AppendNodes(nodes: map<Ptr, Node>, list: Ptr, last: Ptr, item: Ptr): map<Ptr, Node>
    requires list in nodes && item in nodes && (last != Nil ==> last in nodes)
  {
    if last == Nil then nodes[list := nodes[list].(child := item)]
    else nodes[last := nodes[last].(next := item)][item := nodes[item].(prev := last)]
  }

  ghost predicate Appends(m: Mem, m': Mem, a: Tree, t: Tree) {
    && List(m, a) && Loose(m, t) && Apart(a, t)
    && var last := Top(a.kids, |a.kids| - 1);
       (last != Nil ==> last in m.nodes) && m' == m.(nodes := AppendNodes(m.nodes, a.addr, last, t.addr))
  }

  /** The root and the children of a tree are not in a tree apart from it. */
  lemma Roots(a: Tree, t: Tree)
    requires Disjoint(a) && Apart(a, t)
    ensures a.addr in Cells(a) && a.addr !in CellsAll(a.kids) && CellsAll(a.kids) <= Cells(a) && t.addr in Cells(t)
    ensures a.addr != t.addr && t.addr !in CellsAll(a.kids) && a.addr !in Cells(t)
  {
  }

  lemma AppendLinks(m: Mem, m': Mem, a: Tree, t: Tree)
    requires Appends(m, m', a, t)
    ensures Linked(m'.nodes, a.kids + [t])
  {
    var ts := a.kids;
    Roots(a, t);
    forall i | 0 <= i < |ts| + 1 ensures LinkedAt(m'.nodes, ts + [t], i) {
      if i < |ts| {
        assert LinkedAt(m.nodes, ts, i);
        InList(ts, i);
        OnList(m.nodes, a, |ts| - 1);
        if i < |ts| - 1 {
          DistinctTops(ts, i, |ts| - 1);
        }
      } else if ts != [] {
        InList(ts, |ts| - 1);
        OnList(m.nodes, a, |ts| - 1);
      }
    }
  }

  lemma AppendKids(m: Mem, m': Mem, a: Tree, t: Tree)
    requires Appends(m, m', a, t)
    ensures OwnsAll(m'.nodes, a.kids + [t]) && DisjointAll(a.kids + [t]) && a.addr !in CellsAll(a.kids + [t])
  {
    var ts, last := a.kids, Top(a.kids, |a.kids| - 1);
    AppendTree(m.nodes, ts, t);
    Roots(a, t);
    if ts != [] {
      OnList(m.nodes, a, |ts| - 1);
      assert (ts + [t])[|ts| - 1].addr == last && (ts + [t])[|ts|].addr == t.addr;
    }
    OwnedExist(m.nodes, ts + [t]);
    RelinkList(m.nodes, m'.nodes, if ts == [] then {a.addr} else {last, t.addr}, ts + [t]);
  }

  lemma AppendOwns(m: Mem, m': Mem, a: Tree, t: Tree)
    requires Appends(m, m', a, t)
    ensures List(m', WithList(a, a.kids + [t]))
  {
    AppendKids(m, m', a, t);
    AppendLinks(m, m', a, t);
    AppendHead(m, m', a, t);
    AppendSets(a, t);
  }

  /** The array itself after the append: its first child, and all that is not a link. */
  lemma AppendHead(m: Mem, m': Mem, a: Tree, t: Tree)
    requires Appends(m, m', a, t)
    ensures NodeOwns(m'.nodes, WithList(a, a.kids + [t])) && !m'.nodes[a.addr].reference
    ensures Disjoint(WithList(a, a.kids + [t]))
  {
    AppendTree(m.nodes, a.kids, t);
    AppendKids(m, m', a, t);
    Roots(a, t);
    assert Top(a.kids + [t], 0) == if a.kids == [] then t.addr else Top(a.kids, 0);
    if a.kids != [] {
      OnList(m.nodes, a, |a.kids| - 1);
    }
  }

  lemma AppendLinksOnly(m: Mem, m': Mem, a: Tree, t: Tree)
    requires Appends(m, m', a, t)
    ensures LinksOnly(m, m', {a.addr, Top(a.kids, |a.kids| - 1), t.addr}) && OnlyChild(m, m', a.addr)
  {
    Roots(a, t);
    if a.kids != [] {
      OnList(m.nodes, a, |a.kids| - 1);
    }
  }

  lemma AppendSets(a: Tree, t: Tree)
    ensures var b := WithList(a, a.kids + [t]); Cells(b) == Cells(a) + Cells(t) && Texts(b) == Texts(a) + Texts(t)
  {
    AppendTree(map[], a.kids, t);
  }

  /** cJSON_AddItemToArray: the item becomes the last child. */
  method AddItemToArray(h: Heap, list: Ptr, item: Ptr, ghost a: Tree, ghost t: Tree)
    requires h.Valid() && list == a.addr && item == t.addr
    requires List(h.View(), a) && Loose(h.View(), t) && Apart(a, t)
    modifies h`nodes
    ensures h.Valid() && List(h.View(), WithList(a, a.kids + [t]))
    ensures LinksOnly(old(h.View()), h.View(), {list, Top(a.kids, |a.kids| - 1), item})
    ensures OnlyChild(old(h.View()), h.View(), list)
  {
    Roots(a, t);
    var last := LastItem(h, list, a);
    LinkChild(h, list, last, item);
    AppendOwns(old(h.View()), h.View(), a, t);
    AppendLinksOnly(old(h.View()), h.View(), a, t);
  }

  /** `while (c && c->next) c = c->next` */
  method LastItem(h: Heap, list: Ptr, ghost a: Tree) returns (c: Ptr)
    requires list == a.addr && List(h.View(), a)
    ensures c == Top(a.kids, |a.kids| - 1) && (c != Nil ==> c in Cells(a) && c in h.nodes && c != list)
  {
    ghost var i := 0;
    c := h.nodes[list].child;
    if c == Nil {
      NoKids(h.nodes, a.kids);
      return;
    }
    OnList(h.nodes, a, 0);
    while h.nodes[c].next != Nil
      invariant 0 <= i < |a.kids| && c == a.kids[i].addr && c in h.nodes && h.nodes[c].next == Top(a.kids, i + 1)
      decreases |a.kids| - i
    {
      OnList(h.nodes, a, i);
      c, i := h.nodes[c].next, i + 1;
      OnList(h.nodes, a, i);
    }
    OnList(h.nodes, a, i);
    NextEnds(h.nodes, a, i);
  }

  lemma NoKids(nodes: map<Ptr, Node>, ts: seq<Tree>)
    requires OwnsAll(nodes, ts) && Top(ts, 0) == Nil
    ensures ts == []
  {
  }

  /** The i-th child: in memory, linked, not null, and not the array itself. */
  lemma OnList(nodes: map<Ptr, Node>, a: Tree, i: int)
    requires Owns(nodes, a) && Disjoint(a) && 0 <= i < |a.kids|
    ensures LinkedAt(nodes, a.kids, i) && a.kids[i].addr != Nil && a.kids[i].addr != a.addr
    ensures a.kids[i].addr in Cells(a)
  {
    assert LinkedAt(nodes, a.kids, i);
    InList(a.kids, i);
    OwnedKid(nodes, a.kids, i);
  }

  /** A null link ends the list. */
  lemma NextEnds(nodes: map<Ptr, Node>, a: Tree, i: int)
    requires Owns(nodes, a) && Disjoint(a) && 0 <= i < |a.kids| && Top(a.kids, i + 1) == Nil
    ensures i == |a.kids| - 1
  {
    if i < |a.kids| - 1 {
      OnList(nodes, a, i + 1);
    }
  }

  // ---- lookup by position ----

  /** A negative position counts as 0. */
  function Position(which: int): nat { if which < 0 then 0 else which }

  /** The child list of a node as a reader finds it: its own, or that of another node which a reference borrows. */
  ghost predicate Lists(nodes: map<Ptr, Node>, n: Ptr, ts: seq<Tree>) {
    n in nodes && nodes[n].child == Top(ts, 0) && Linked(nodes, ts) && forall i | 0 <= i < |ts| :: ts[i].addr != Nil
  }

  lemma OwnList(m: Mem, a: Tree)
    requires List(m, a)
    ensures Lists(m.nodes, a.addr, a.kids)
  {
    forall i | 0 <= i < |a.kids| ensures a.kids[i].addr != Nil {
      OnList(m.nodes, a, i);
    }
  }

  /** cJSON_GetArrayItem, and the walk of detach and replace: `while (c && which > 0) c = c->next, which--` */
  method GetArrayItem(h: Heap, list: Ptr, which: int, ghost ts: seq<Tree>) returns (c: Ptr)
    requires Lists(h.nodes, list, ts)
    ensures c == Top(ts, Position(which)) && (c == Nil <==> Position(which) >= |ts|)
  {
    ghost var i := 0;
    var left := which;
    c := h.nodes[list].child;
    while c != Nil && left > 0
      invariant 0 <= i <= |ts| && c == Top(ts, i) && i + Position(left) == Position(which)
      decreases left
    {
      assert LinkedAt(h.nodes, ts, i);
      c, left, i := h.nodes[c].next, left - 1, i + 1;
    }
  }

  /** cJSON_GetArraySize */
  method GetArraySize(h: Heap, list: Ptr, ghost ts: seq<Tree>) returns (n: nat)
    requires Lists(h.nodes, list, ts)
    ensures n == |ts|
  {
    var c := h.nodes[list].child;
    n := 0;
    while c != Nil
      invariant n <= |ts| && c == Top(ts, n)
      decreases |ts| - n
    {
      assert LinkedAt(h.nodes, ts, n);
      c, n := h.nodes[c].next, n + 1;
    }
  }

  // ---- detach ----

  /** The i-th child and its neighbours. */
  ghost function Around(ts: seq<Tree>, i: int): set<Ptr>
    requires 0 <= i < |ts|
  {
    {ts[i].addr} + (if i > 0 then {ts[i - 1].addr} else {}) + (if i + 1 < |ts| then {ts[i + 1].addr} else {})
  }

  /** The i-th child has been unlinked: its neighbours, or the head, lead past it. */
  ghost predicate Unlinks(m: Mem, m': Mem, a: Tree, i: int) {
    && List(m, a) && 0 <= i < |a.kids| && m' == m.(nodes := m'.nodes) && m'.nodes.Keys == m.nodes.Keys
    && var c, prev, next := a.kids[i].addr, Top(a.kids, i - 1), Top(a.kids, i + 1);
       && c in m.nodes && m'.nodes[c] == m.nodes[c].(next := Nil, prev := Nil)
       && (i > 0 ==> prev in m.nodes && m'.nodes[prev] == m.nodes[prev].(next := next))
       && (i + 1 < |a.kids| ==> next in m.nodes && m'.nodes[next] == m.nodes[next].(prev := prev))
       && a.addr in m.nodes && m'.nodes[a.addr] == (if i == 0 then m.nodes[a.addr].(child := next) else m.nodes[a.addr])
       && forall n <- m.nodes | n !in Around(a.kids, i) && n != a.addr :: m'.nodes[n] == m.nodes[n]
  }

  lemma UnlinkLinks(m: Mem, m': Mem, a: Tree, i: int)
    requires Unlinks(m, m', a, i)
    ensures Linked(m'.nodes, Without(a.kids, i))
  {
    var us := Without(a.kids, i);
    forall j | 0 <= j < |us| ensures LinkedAt(m'.nodes, us, j) {
      UnlinkedAt(m, m', a, i, if j < i then j else j + 1);
      WithoutTops(a.kids, i, j);
    }
  }

  /** The links of another child after the i-th has been unlinked. */
  lemma UnlinkedAt(m: Mem, m': Mem, a: Tree, i: int, k: int)
    requires Unlinks(m, m', a, i) && 0 <= k < |a.kids| && k != i
    ensures a.kids[k].addr in m'.nodes
    ensures var node := m'.nodes[a.kids[k].addr];
            && node.next == (if k == i - 1 then Top(a.kids, i + 1) else Top(a.kids, k + 1))
            && node.prev == (if k == i + 1 then Top(a.kids, i - 1) else Top(a.kids, k - 1))
  {
    OnList(m.nodes, a, k);
    DistinctFrom(a.kids, k, i);
    DistinctFrom(a.kids, k, i - 1);
    DistinctFrom(a.kids, k, i + 1);
  }

  lemma WithoutTops(ts: seq<Tree>, i: int, j: int)
    requires 0 <= i < |ts| && 0 <= j < |ts| - 1
    ensures var us, k := Without(ts, i), if j < i then j else j + 1;
            && us[j] == ts[k] && Top(us, j + 1) == (if k == i - 1 then Top(ts, i + 1) else Top(ts, k + 1))
            && Top(us, j - 1) == (if k == i + 1 then Top(ts, i - 1) else Top(ts, k - 1))
  {
  }

  lemma DistinctFrom(ts: seq<Tree>, k: int, i: int)
    requires DisjointAll(ts) && 0 <= k < |ts|
    ensures 0 <= i < |ts| && i != k ==> ts[i].addr != ts[k].addr && Cells(ts[i]) !! Cells(ts[k])
  {
    if 0 <= i < k {
      DistinctTops(ts, i, k);
    } else if k < i < |ts| {
      DistinctTops(ts, k, i);
    }
  }

  lemma UnlinkKids(m: Mem, m': Mem, a: Tree, i: int)
    requires Unlinks(m, m', a, i)
    ensures OwnsAll(m'.nodes, Without(a.kids, i)) && Owns(m'.nodes, a.kids[i])
  {
    UnlinkRest(m, m', a, i);
    UnlinkInside(m, m', a, i);
  }

  lemma UnlinkRest(m: Mem, m': Mem, a: Tree, i: int)
    requires Unlinks(m, m', a, i)
    ensures OwnsAll(m'.nodes, Without(a.kids, i))
  {
    var us, changed := Without(a.kids, i), {a.addr} + Around(a.kids, i);
    TakeOut(m.nodes, a.kids, i);
    OwnedExist(m.nodes, a.kids);
    AllTops(m, a, i, changed);
    UnlinkRelinks(m, m', a, i);
    assert CellsAll(us) <= CellsAll(a.kids) && a.addr !in CellsAll(us);
    RelinkList(m.nodes, m'.nodes, changed, us);
  }

  lemma UnlinkRelinks(m: Mem, m': Mem, a: Tree, i: int)
    requires Unlinks(m, m', a, i)
    ensures forall n <- m.nodes :: n in m'.nodes && (n != a.addr ==> Relinked(m.nodes[n], m'.nodes[n]))
  {
  }

  lemma AllTops(m: Mem, a: Tree, i: int, changed: set<Ptr>)
    requires List(m, a) && 0 <= i < |a.kids| && changed == {a.addr} + Around(a.kids, i)
    ensures forall n <- changed :: IsTop(Without(a.kids, i), n) || n !in CellsAll(Without(a.kids, i))
  {
    forall n <- changed ensures IsTop(Without(a.kids, i), n) || n !in CellsAll(Without(a.kids, i)) {
      AroundIsTop(m, a, i, n);
    }
  }

  lemma UnlinkInside(m: Mem, m': Mem, a: Tree, i: int)
    requires Unlinks(m, m', a, i)
    ensures Owns(m'.nodes, a.kids[i])
  {
    TakeOut(m.nodes, a.kids, i);
    forall n <- {a.addr} + Around(a.kids, i) ensures n !in CellsAll(a.kids[i].kids) {
      AroundIsTop(m, a, i, n);
    }
    RelinkTree(m.nodes, m'.nodes, a.kids[i]);
  }

  /** The nodes that detaching writes to are roots; none lies below a child. */
  lemma AroundIsTop(m: Mem, a: Tree, i: int, n: Ptr)
    requires List(m, a) && 0 <= i < |a.kids| && (n == a.addr || n in Around(a.kids, i))
    ensures IsTop(Without(a.kids, i), n) || n !in CellsAll(Without(a.kids, i))
    ensures n !in CellsAll(a.kids[i].kids)
  {
    var ts, us := a.kids, Without(a.kids, i);
    TakeOut(m.nodes, ts, i);
    InList(ts, i);
    if n == a.addr {
      assert CellsAll(ts[i].kids) <= Cells(ts[i]);
    } else if n == ts[i].addr {
      TopNotBelow(ts, i, i);
    } else if i > 0 && n == ts[i - 1].addr {
      TopNotBelow(ts, i, i - 1);
      assert us[i - 1].addr == n;
    } else {
      TopNotBelow(ts, i, i + 1);
      assert us[i].addr == n;
    }
  }

  lemma UnlinkOwns(m: Mem, m': Mem, a: Tree, i: int)
    requires Unlinks(m, m', a, i)
    ensures List(m', WithList(a, Without(a.kids, i))) && Loose(m', a.kids[i])
  {
    UnlinkKids(m, m', a, i);
    UnlinkLinks(m, m', a, i);
    UnlinkSets(m, a, i);
    LinksOfItem(m, a, i);
    OwnedKid(m.nodes, a.kids, i);
    assert Top(Without(a.kids, i), 0) == if i == 0 then Top(a.kids, 1) else Top(a.kids, 0);
  }

  lemma UnlinkLinksOnly(m: Mem, m': Mem, a: Tree, i: int)
    requires Unlinks(m, m', a, i)
    ensures LinksOnly(m, m', {a.addr} + Around(a.kids, i)) && OnlyChild(m, m', a.addr)
  {
  }

  lemma UnlinkSets(m: Mem, a: Tree, i: int)
    requires List(m, a) && 0 <= i < |a.kids|
    ensures var b, t := WithList(a, Without(a.kids, i)), a.kids[i];
            && Cells(a) == Cells(b) + Cells(t) && Texts(a) == Texts(b) + Texts(t) && Apart(b, t) && Disjoint(b)
            && Disjoint(t)
  {
    TakeOut(m.nodes, a.kids, i);
    InList(a.kids, i);
    OwnedApart({a.addr}, CellsAll(a.kids), CellsAll(Without(a.kids, i)), Cells(a.kids[i]));
    OwnedApart(RefSet(a.text) + RefSet(a.name), TextsAll(a.kids), TextsAll(Without(a.kids, i)), Texts(a.kids[i]));
  }

  /** A part of what lies below a node: the node's own, with the rest, is apart from it. */
  lemma OwnedApart<T>(own: set<T>, all: set<T>, rest: set<T>, part: set<T>)
    requires own !! all && all == rest + part && rest !! part
    ensures own + all == own + rest + part && own + rest !! part && own !! rest
  {
  }

  /** cJSON_DetachItemFromArray: the child at the position, if there is one, leaves the list. */
  method DetachItemFromArray(h: Heap, list: Ptr, which: int, ghost a: Tree) returns (c: Ptr)
    requires h.Valid() && list == a.addr && List(h.View(), a)
    modifies h`nodes
    ensures h.Valid()
    ensures Position(which) >= |a.kids| ==> c == Nil && h.nodes == old(h.nodes)
    ensures Position(which) < |a.kids| ==>
              var i := Position(which);
              var b, t := WithList(a, Without(a.kids, i)), a.kids[i];
              && c == t.addr && List(h.View(), b) && Loose(h.View(), t) && Apart(b, t)
              && LinksOnly(old(h.View()), h.View(), {list} + Around(a.kids, i))
              && OnlyChild(old(h.View()), h.View(), list)
  {
    OwnList(h.View(), a);
    c := GetArrayItem(h, list, which, a.kids);
    if c != Nil {
      UnlinkItem(h, list, c, a, Position(which));
      UnlinkOwns(old(h.View()), h.View(), a, Position(which));
      UnlinkLinksOnly(old(h.View()), h.View(), a, Position(which));
      UnlinkSets(old(h.View()), a, Position(which));
    }
  }

  /** The stores of detach. */
  method UnlinkItem(h: Heap, list: Ptr, c: Ptr, ghost a: Tree, ghost i: int)
    requires h.Valid() && list == a.addr && List(h.View(), a) && 0 <= i < |a.kids| && c == a.kids[i].addr
    modifies h`nodes
    ensures h.Valid() && Unlinks(old(h.View()), h.View(), a, i)
  {
    LinksOfItem(h.View(), a, i);
    var prev, next := h.nodes[c].prev, h.nodes[c].next;
    JoinNeighbours(h, prev, next);
    ghost var joined := h.nodes;
    JoinedIs(old(h.nodes), prev, next);
    Unhook(h, list, c, next);
    JoinedUnlinks(old(h.View()), joined, h.View(), a, i);
  }

  /** The head of the list, if the child was the first, and the child's own links. */
  method Unhook(h: Heap, list: Ptr, c: Ptr, next: Ptr)
    requires h.Valid() && list in h.live && c in h.live && list != c
    modifies h`nodes
    ensures h.Valid()
    ensures h.nodes
        == (if old(h.nodes[list]).child == c then old(h.nodes)[list := old(h.nodes[list]).(child := next)]
            else old(h.nodes))
                       [c := old(h.nodes[c]).(prev := Nil, next := Nil)]
  {
    if c == h.nodes[list].child {
      h.Store(list, h.nodes[list].(child := next));
    }
    h.Store(c, h.nodes[c].(prev := Nil, next := Nil));
  }

  function JoinedNodes(nodes: map<Ptr, Node>, prev: Ptr, next: Ptr): map<Ptr, Node>
    requires (prev != Nil ==> prev in nodes) && (next != Nil ==> next in nodes)
  {
    var ahead := if prev != Nil then nodes[prev := nodes[prev].(next := next)] else nodes;
    if next != Nil then ahead[next := ahead[next].(prev := prev)] else ahead
  }

  lemma JoinedIs(nodes: map<Ptr, Node>, prev: Ptr, next: Ptr)
    requires (prev != Nil ==> prev in nodes && prev != next) && (next != Nil ==> next in nodes)
    ensures Joined(nodes, JoinedNodes(nodes, prev, next), prev, next)
  {
  }

  /** The two neighbours, as far as there are any, lead to each other. */
  ghost predicate Joined(nodes: map<Ptr, Node>, joined: map<Ptr, Node>, prev: Ptr, next: Ptr) {
    && joined.Keys == nodes.Keys
    && (prev != Nil ==> prev in nodes && joined[prev] == nodes[prev].(next := next))
    && (next != Nil ==> next in nodes && joined[next] == nodes[next].(prev := prev))
    && forall n <- joined | (prev == Nil || n != prev) && (next == Nil || n != next) :: joined[n] == nodes[n]
  }

  lemma JoinedUnlinks(m: Mem, joined: map<Ptr, Node>, m': Mem, a: Tree, i: int)
    requires List(m, a) && 0 <= i < |a.kids| && Joined(m.nodes, joined, Top(a.kids, i - 1), Top(a.kids, i + 1))
    requires var c, next := a.kids[i].addr, Top(a.kids, i + 1);
             && a.addr in joined && c in joined
             && m' == m.(nodes := (if i == 0 then joined[a.addr := joined[a.addr].(child := next)] else joined)
                                  [c := joined[c].(prev := Nil, next := Nil)])
    ensures Unlinks(m, m', a, i)
  {
    LinksOfItem(m, a, i);
  }

  /** `c->prev->next = c->next; c->next->prev = c->prev`, each if there is such a neighbour */
  method JoinNeighbours(h: Heap, prev: Ptr, next: Ptr)
    requires h.Valid() && (prev != Nil ==> prev in h.live && prev != next) && (next != Nil ==> next in h.live)
    modifies h`nodes
    ensures h.Valid() && h.nodes == JoinedNodes(old(h.nodes), prev, next)
  {
    if prev != Nil {
      h.Store(prev, h.nodes[prev].(next := next));
    }
    if next != Nil {
      h.Store(next, h.nodes[next].(prev := prev));
    }
  }

  /** What the links of the i-th child tell. */
  lemma LinksOfItem(m: Mem, a: Tree, i: int)
    requires List(m, a) && 0 <= i < |a.kids|
    ensures var c, prev, next := a.kids[i].addr, Top(a.kids, i - 1), Top(a.kids, i + 1);
            && a.addr in m.live && c in m.live && a.addr != c && a.addr in m.nodes && c in m.nodes
            && m.nodes[c].prev == prev && m.nodes[c].next == next && (m.nodes[a.addr].child == c <==> i == 0)
            && (i == 0 <==> prev == Nil)
            && (i > 0 ==> prev in m.live && prev in m.nodes && prev != c && prev != a.addr && prev != next)
            && (i + 1 == |a.kids| <==> next == Nil)
            && (i + 1 < |a.kids| ==> next in m.live && next in m.nodes && next != c && next != a.addr)
  {
    OwnedExist(m.nodes, a.kids);
    OnList(m.nodes, a, i);
    DistinctFrom(a.kids, i, 0);
    if i > 0 {
      OnList(m.nodes, a, i - 1);
      DistinctFrom(a.kids, i, i - 1);
      DistinctFrom(a.kids, i - 1, i + 1);
    }
    if i + 1 < |a.kids| {
      OnList(m.nodes, a, i + 1);
      DistinctFrom(a.kids, i, i + 1);
    }
  }

  // ---- delete ----

  /** The old memory with a tree deleted: its nodes and strings are gone, all others keep their data. */
  ghost predicate Deleted(m: Mem, m': Mem, t: Tree) {
    && m'.live == m.live - Cells(t) && m'.strings == m.strings - Texts(t)
    && forall n <- m'.live :: n in m.nodes && n in m'.nodes && SameData(m.nodes[n], m'.nodes[n])
  }

  ghost predicate SameOutside(m: Mem, m': Mem, inside: set<Ptr>) {
    forall n <- m'.live | n !in inside :: n in m.nodes && n in m'.nodes && m'.nodes[n] == m.nodes[n]
  }

  /** A child t of `list` has been deleted. Of the pools exactly those of t without a live node have gone,
      the list node has at most another first child, and outside `inside` no node has changed. */
  ghost predicate Deletes(m: Mem, m': Mem, list: Ptr, inside: set<Ptr>, t: Tree) {
    && Deleted(m, m', t) && Released(m.pools, Cells(t), m'.pools, m'.live)
    && OnlyChild(m, m', list) && SameOutside(m, m', inside)
  }

  /** New links inside, and the deletion behind them. */
  lemma DeletesBehind(m: Mem, m1: Mem, m': Mem, list: Ptr, inside: set<Ptr>, t: Tree)
    requires m.live <= m.nodes.Keys && m1.live == m.live && m1.strings == m.strings && m1.pools == m.pools
    requires m1.nodes.Keys == m.nodes.Keys && forall n <- m.nodes :: SameData(m.nodes[n], m1.nodes[n])
    requires SameOutside(m, m1, inside) && OnlyChild(m, m1, list)
    requires GivenBack(m1, m', Cells(t), Texts(t)) && list in m'.live
    ensures Deletes(m, m', list, inside, t)
  {
  }

  /** cJSON_Delete on a tree that is in no list gives back this tree only; a list apart from it stays. */
  method DeleteLoose(h: Heap, c: Ptr, ghost t: Tree, ghost b: Tree)
    requires h.Valid() && c == t.addr && Loose(h.View(), t) && List(h.View(), b) && Apart(b, t)
    modifies h`nodes, h`strings, h`pools, h`live, h`used, h`free, h`freed, h`destroyed
    ensures h.Valid() && List(h.View(), b) && b.addr in h.live
    ensures GivenBack(old(h.View()), h.View(), Cells(t), Texts(t)) && h.freed == old(h.freed) + Order(t)
  {
    OnlyTree(h.nodes, t);
    Delete(h, c, [t]);
    assert b.addr in Cells(b);
    FrameTree(old(h.nodes), h.nodes, b);
  }

  /** cJSON_DeleteItemFromArray */
  method DeleteItemFromArray(h: Heap, list: Ptr, which: int, ghost a: Tree)
    requires h.Valid() && list == a.addr && List(h.View(), a)
    modifies h`nodes, h`strings, h`pools, h`live, h`used, h`free, h`freed, h`destroyed
    ensures h.Valid()
    ensures Position(which) >= |a.kids| ==> h.View() == old(h.View()) && h.freed == old(h.freed)
    ensures Position(which) < |a.kids| ==>
              && List(h.View(), WithList(a, Without(a.kids, Position(which))))
              && Deletes(old(h.View()), h.View(), list, Cells(a), a.kids[Position(which)])
              && h.freed == old(h.freed) + Order(a.kids[Position(which)])
  {
    var c := DetachItemFromArray(h, list, which, a);
    if c != Nil {
      ghost var m, t := h.View(), a.kids[Position(which)];
      UnlinkedOutside(old(h.View()), m, a, Position(which));
      DeleteLoose(h, c, t, WithList(a, Without(a.kids, Position(which))));
      DeletesBehind(old(h.View()), m, h.View(), list, Cells(a), t);
    }
  }

  lemma UnlinkedOutside(m: Mem, m': Mem, a: Tree, i: int)
    requires List(m, a) && 0 <= i < |a.kids| && LinksOnly(m, m', {a.addr} + Around(a.kids, i)) && m.live <= m.nodes.Keys
    ensures SameOutside(m, m', Cells(a))
  {
    WritesInside(m, a, i);
  }

  lemma WritesInside(m: Mem, a: Tree, i: int)
    requires List(m, a) && 0 <= i < |a.kids|
    ensures {a.addr} + Around(a.kids, i) <= Cells(a)
  {
    forall n <- {a.addr} + Around(a.kids, i) ensures n in Cells(a) {
      AroundInside(m, a, i, n);
    }
  }

  // ---- replace ----

  /** The i-th child has been replaced by t: the neighbours, or the head, lead to t. */
  ghost predicate Swaps(m: Mem, m': Mem, a: Tree, i: int, t: Tree) {
    && List(m, a) && 0 <= i < |a.kids| && Mine(m, t) && Apart(a, t) && m' == m.(nodes := m'.nodes)
    && m'.nodes.Keys == m.nodes.Keys
    && var c, prev, next := a.kids[i].addr, Top(a.kids, i - 1), Top(a.kids, i + 1);
       && c in m.nodes && m'.nodes[c] == m.nodes[c].(next := Nil, prev := Nil)
       && t.addr in m.nodes && m'.nodes[t.addr] == m.nodes[t.addr].(next := next, prev := prev)
       && (i > 0 ==> prev in m.nodes && m'.nodes[prev] == m.nodes[prev].(next := t.addr))
       && (i + 1 < |a.kids| ==> next in m.nodes && m'.nodes[next] == m.nodes[next].(prev := t.addr))
       && a.addr in m.nodes
       && m'.nodes[a.addr] == (if i == 0 then m.nodes[a.addr].(child := t.addr) else m.nodes[a.addr])
       && forall n <- m.nodes | n !in Around(a.kids, i) && n != a.addr && n != t.addr :: m'.nodes[n] == m.nodes[n]
  }

  lemma SwapLinks(m: Mem, m': Mem, a: Tree, i: int, t: Tree)
    requires Swaps(m, m', a, i, t)
    ensures Linked(m'.nodes, a.kids[i := t])
  {
    var ts, us := a.kids, a.kids[i := t];
    Roots(a, t);
    forall j | 0 <= j < |us| ensures LinkedAt(m'.nodes, us, j) {
      OnList(m.nodes, a, j);
      DistinctFrom(ts, j, i);
      DistinctFrom(ts, j, i - 1);
      DistinctFrom(ts, j, i + 1);
      assert Top(us, j + 1) == if j + 1 == i then t.addr else Top(ts, j + 1);
      assert Top(us, j - 1) == if j - 1 == i then t.addr else Top(ts, j - 1);
    }
  }

  lemma SwapKids(m: Mem, m': Mem, a: Tree, i: int, t: Tree)
    requires Swaps(m, m', a, i, t)
    ensures OwnsAll(m'.nodes, a.kids[i := t]) && DisjointAll(a.kids[i := t]) && Owns(m'.nodes, a.kids[i])
    ensures CellsAll(a.kids[i := t]) == CellsAll(Without(a.kids, i)) + Cells(t)
    ensures TextsAll(a.kids[i := t]) == TextsAll(Without(a.kids, i)) + Texts(t)
  {
    SwapRest(m, m', a, i, t);
    SwapInside(m, m', a, i, t);
    TakeOut(m.nodes, a.kids, i);
    Roots(a, t);
    PutIn(m'.nodes, a.kids, i, t);
  }

  lemma SwapRest(m: Mem, m': Mem, a: Tree, i: int, t: Tree)
    requires Swaps(m, m', a, i, t)
    ensures OwnsAll(m'.nodes, Without(a.kids, i))
  {
    var us, changed := Without(a.kids, i), {a.addr, t.addr} + Around(a.kids, i);
    TakeOut(m.nodes, a.kids, i);
    OwnedExist(m.nodes, a.kids);
    Roots(a, t);
    forall n <- changed ensures IsTop(us, n) || n !in CellsAll(us) {
      SwapIsTop(m, a, i, t, n);
    }
    SwapRelinks(m, m', a, i, t);
    RelinkList(m.nodes, m'.nodes, changed, us);
  }

  lemma SwapRelinks(m: Mem, m': Mem, a: Tree, i: int, t: Tree)
    requires Swaps(m, m', a, i, t)
    ensures forall n <- m.nodes | n !in {a.addr, t.addr} + Around(a.kids, i) ::
              n in m'.nodes && m'.nodes[n] == m.nodes[n]
    ensures forall n <- m.nodes | n != a.addr :: n in m'.nodes && Relinked(m.nodes[n], m'.nodes[n])
  {
  }

  lemma SwapInside(m: Mem, m': Mem, a: Tree, i: int, t: Tree)
    requires Swaps(m, m', a, i, t)
    ensures Owns(m'.nodes, a.kids[i]) && Owns(m'.nodes, t)
  {
    TakeOut(m.nodes, a.kids, i);
    forall n <- {a.addr, t.addr} + Around(a.kids, i) ensures n !in CellsAll(a.kids[i].kids) && n !in CellsAll(t.kids) {
      SwapIsTop(m, a, i, t, n);
    }
    SwapRelinks(m, m', a, i, t);
    RelinkTree(m.nodes, m'.nodes, a.kids[i]);
    RelinkTree(m.nodes, m'.nodes, t);
  }

  lemma SwapIsTop(m: Mem, a: Tree, i: int, t: Tree, n: Ptr)
    requires List(m, a) && Mine(m, t) && Apart(a, t) && 0 <= i < |a.kids|
    requires n == a.addr || n == t.addr || n in Around(a.kids, i)
    ensures IsTop(Without(a.kids, i), n) || n !in CellsAll(Without(a.kids, i))
    ensures n !in CellsAll(a.kids[i].kids) && n !in CellsAll(t.kids)
  {
    TakeOut(m.nodes, a.kids, i);
    Roots(a, t);
    assert CellsAll(t.kids) <= Cells(t) && CellsAll(a.kids[i].kids) <= Cells(a.kids[i]);
    if n != t.addr {
      AroundIsTop(m, a, i, n);
      AroundInside(m, a, i, n);
    }
  }

  lemma AroundInside(m: Mem, a: Tree, i: int, n: Ptr)
    requires List(m, a) && 0 <= i < |a.kids| && (n == a.addr || n in Around(a.kids, i))
    ensures n in Cells(a)
  {
    OnList(m.nodes, a, i);
    if i > 0 {
      OnList(m.nodes, a, i - 1);
    }
    if i + 1 < |a.kids| {
      OnList(m.nodes, a, i + 1);
    }
  }

  lemma SwapOwns(m: Mem, m': Mem, a: Tree, i: int, t: Tree)
    requires Swaps(m, m', a, i, t)
    ensures List(m', WithList(a, a.kids[i := t])) && Loose(m', a.kids[i])
  {
    SwapKids(m, m', a, i, t);
    SwapLinks(m, m', a, i, t);
    SwapSets(m, a, i, t);
    LinksOfItem(m, a, i);
    OwnedKid(m.nodes, a.kids, i);
    Roots(a, t);
    assert Top(a.kids[i := t], 0) == if i == 0 then t.addr else Top(a.kids, 0);
  }

  lemma SwapSets(m: Mem, a: Tree, i: int, t: Tree)
    requires List(m, a) && 0 <= i < |a.kids| && Mine(m, t) && Apart(a, t)
    ensures var b := WithList(a, a.kids[i := t]);
            && Cells(b) == Cells(a) - Cells(a.kids[i]) + Cells(t) && Texts(b) == Texts(a) - Texts(a.kids[i]) + Texts(t)
            && Cells(a.kids[i]) <= Cells(a) && Texts(a.kids[i]) <= Texts(a)
            && Apart(b, a.kids[i]) && Disjoint(b) && Disjoint(a.kids[i])
  {
    TakeOut(m.nodes, a.kids, i);
    PutIn(m.nodes, a.kids, i, t);
    InList(a.kids, i);
  }

  lemma SwapLinksOnly(m: Mem, m': Mem, a: Tree, i: int, t: Tree)
    requires Swaps(m, m', a, i, t)
    ensures LinksOnly(m, m', {a.addr, t.addr} + Around(a.kids, i)) && OnlyChild(m, m', a.addr)
  {
    Roots(a, t);
  }

  /** All that replacing has done before the old child is deleted. */
  lemma SwapResult(m: Mem, m': Mem, a: Tree, i: int, t: Tree)
    requires Swaps(m, m', a, i, t) && m.live <= m.nodes.Keys
    ensures List(m', WithList(a, a.kids[i := t])) && Loose(m', a.kids[i])
    ensures Apart(WithList(a, a.kids[i := t]), a.kids[i])
    ensures forall n <- m.nodes :: SameData(m.nodes[n], m'.nodes[n])
    ensures SameOutside(m, m', Cells(a) + Cells(t)) && OnlyChild(m, m', a.addr)
  {
    SwapOwns(m, m', a, i, t);
    SwapLinksOnly(m, m', a, i, t);
    SwapSets(m, a, i, t);
    WritesInside(m, a, i);
    Roots(a, t);
  }

  /** cJSON_ReplaceItemInArray: the new item takes the place of the child at the position, which is
      deleted with all it owns and nothing else. Without such a child nothing happens. */
  method ReplaceItemInArray(h: Heap, list: Ptr, which: int, item: Ptr, ghost a: Tree, ghost t: Tree)
    requires h.Valid() && list == a.addr && item == t.addr
    requires List(h.View(), a) && Mine(h.View(), t) && Apart(a, t)
    modifies h`nodes, h`strings, h`pools, h`live, h`used, h`free, h`freed, h`destroyed
    ensures h.Valid()
    ensures Position(which) >= |a.kids| ==> h.View() == old(h.View()) && h.freed == old(h.freed)
    ensures Position(which) < |a.kids| ==>
              && List(h.View(), WithList(a, a.kids[Position(which) := t]))
              && Deletes(old(h.View()), h.View(), list, Cells(a) + Cells(t), a.kids[Position(which)])
              && h.freed == old(h.freed) + Order(a.kids[Position(which)])
  {
    OwnList(h.View(), a);
    var c := GetArrayItem(h, list, which, a.kids);
    if c != Nil {
      ReplaceChild(h, list, c, item, a, Position(which), t);
    }
  }

  /** The stores, and the deletion of the old child. */
  method ReplaceChild(h: Heap, list: Ptr, c: Ptr, item: Ptr, ghost a: Tree, ghost i: nat, ghost t: Tree)
    requires h.Valid() && list == a.addr && item == t.addr && i < |a.kids| && c == a.kids[i].addr
    requires List(h.View(), a) && Mine(h.View(), t) && Apart(a, t)
    modifies h`nodes, h`strings, h`pools, h`live, h`used, h`free, h`freed, h`destroyed
    ensures h.Valid() && List(h.View(), WithList(a, a.kids[i := t]))
    ensures Deletes(old(h.View()), h.View(), list, Cells(a) + Cells(t), a.kids[i])
    ensures h.freed == old(h.freed) + Order(a.kids[i])
  {
    SwapItem(h, list, c, item, a, i, t);
    ghost var m := h.View();
    SwapResult(old(h.View()), m, a, i, t);
    DeleteLoose(h, c, a.kids[i], WithList(a, a.kids[i := t]));
    DeletesBehind(old(h.View()), m, h.View(), list, Cells(a) + Cells(t), a.kids[i]);
  }

  /** The stores of replace. */
  method SwapItem(h: Heap, list: Ptr, c: Ptr, item: Ptr, ghost a: Tree, ghost i: int, ghost t: Tree)
    requires h.Valid() && list == a.addr && item == t.addr && 0 <= i < |a.kids| && c == a.kids[i].addr
    requires List(h.View(), a) && Mine(h.View(), t) && Apart(a, t)
    modifies h`nodes
    ensures h.Valid() && Swaps(old(h.View()), h.View(), a, i, t)
  {
    LinksOfItem(h.View(), a, i);
    Roots(a, t);
    OutsideList(h.View(), a, i, t);
    StoreSwap(h, list, c, h.nodes[c].prev, h.nodes[c].next, item);
    SwapStored(old(h.View()), h.View(), a, i, t);
  }

  method StoreSwap(h: Heap, list: Ptr, c: Ptr, prev: Ptr, next: Ptr, item: Ptr)
    requires h.Valid() && list in h.live && c in h.live && item in h.live && prev == h.nodes[c].prev
    requires next == h.nodes[c].next
    requires (next != Nil ==> next in h.live) && (h.nodes[list].child != c ==> prev in h.live)
    modifies h`nodes
    ensures h.Valid() && h.nodes == Swapped(old(h.nodes), list, c, prev, next, item)
  {
    StoreItem(h, prev, next, item);
    LinkedSameChild(old(h.nodes), prev, next, item, list);
    StoreAhead(h, list, c, prev, item);
    h.Store(c, h.nodes[c].(next := Nil, prev := Nil));
  }

  /** The new item, and the link back to it. */
  method StoreItem(h: Heap, prev: Ptr, next: Ptr, item: Ptr)
    requires h.Valid() && item in h.live && (next != Nil ==> next in h.live)
    modifies h`nodes
    ensures h.Valid() && h.nodes == LinkedItem(old(h.nodes), prev, next, item)
  {
    h.Store(item, h.nodes[item].(next := next, prev := prev));
    if next != Nil {
      h.Store(next, h.nodes[next].(prev := item));
    }
  }

  /** The head of the list, or the link of the child before. */
  method StoreAhead(h: Heap, list: Ptr, c: Ptr, prev: Ptr, item: Ptr)
    requires h.Valid() && list in h.live && (h.nodes[list].child != c ==> prev in h.live)
    modifies h`nodes
    ensures h.Valid() && h.nodes == LinkedAhead(old(h.nodes), list, c, prev, item)
  {
    if c == h.nodes[list].child {
      h.Store(list, h.nodes[list].(child := item));
    } else {
      h.Store(prev, h.nodes[prev].(next := item));
    }
  }

  function LinkedItem(nodes: map<Ptr, Node>, prev: Ptr, next: Ptr, item: Ptr): map<Ptr, Node>
    requires item in nodes && (next != Nil ==> next in nodes)
  {
    var linked := nodes[item := nodes[item].(next := next, prev := prev)];
    if next != Nil then linked[next := linked[next].(prev := item)] else linked
  }

  lemma LinkedSameChild(nodes: map<Ptr, Node>, prev: Ptr, next: Ptr, item: Ptr, list: Ptr)
    requires item in nodes && (next != Nil ==> next in nodes) && list in nodes
    ensures list in LinkedItem(nodes, prev, next, item)
    ensures LinkedItem(nodes, prev, next, item)[list].child == nodes[list].child
  {
  }

  function LinkedAhead(nodes: map<Ptr, Node>, list: Ptr, c: Ptr, prev: Ptr, item: Ptr): map<Ptr, Node>
    requires list in nodes && (nodes[list].child != c ==> prev in nodes)
  {
    if c == nodes[list].child then nodes[list := nodes[list].(child := item)]
    else nodes[prev := nodes[prev].(next := item)]
  }

  function Swapped(nodes: map<Ptr, Node>, list: Ptr, c: Ptr, prev: Ptr, next: Ptr, item: Ptr): map<Ptr, Node>
    requires list in nodes && c in nodes && item in nodes && (next != Nil ==> next in nodes)
    requires nodes[list].child != c ==> prev in nodes
  {
    var ahead := LinkedAhead(LinkedItem(nodes, prev, next, item), list, c, prev, item);
    ahead[c := ahead[c].(next := Nil, prev := Nil)]
  }

  /** The new item is none of the nodes of the list. */
  lemma OutsideList(m: Mem, a: Tree, i: int, t: Tree)
    requires List(m, a) && Mine(m, t) && Apart(a, t) && 0 <= i < |a.kids|
    ensures t.addr != a.addr && t.addr !in Around(a.kids, i) && t.addr in m.live && t.addr in m.nodes
  {
    Roots(a, t);
    forall n <- Around(a.kids, i) ensures n in Cells(a) {
      AroundInside(m, a, i, n);
    }
  }

  lemma SwapStored(m: Mem, m': Mem, a: Tree, i: int, t: Tree)
    requires List(m, a) && Mine(m, t) && Apart(a, t) && 0 <= i < |a.kids|
    requires var c, prev, next := a.kids[i].addr, Top(a.kids, i - 1), Top(a.kids, i + 1);
             && a.addr in m.nodes && c in m.nodes && t.addr in m.nodes && (next != Nil ==> next in m.nodes)
             && (m.nodes[a.addr].child != c ==> prev in m.nodes)
             && m' == m.(nodes := Swapped(m.nodes, a.addr, c, prev, next, t.addr))
    ensures Swaps(m, m', a, i, t)
  {
    LinksOfItem(m, a, i);
    OutsideList(m, a, i, t);
  }

  // ---- what the operations mean for the values in the list ----

  /** After cJSON_DetachItemFromArray the array is the old one without the value at the position, and the
      child is what it was. */
  lemma DetachedItems(m: Mem, m': Mem, changed: set<Ptr>, a: Tree, i: int, vs: seq<Value>)
    requires LinksOnly(m, m', changed) && 0 <= i < |a.kids| && Items(m, a.kids, vs)
    ensures Items(m', Without(a.kids, i), Without(vs, i)) && Is(m'.nodes, m'.strings, a.kids[i], vs[i])
  {
    FrameItems(m, m', a.kids, vs);
  }

  /** After cJSON_AddItemToArray the array is the old one with the new value at its end. */
  lemma AppendedItems(m: Mem, m': Mem, changed: set<Ptr>, a: Tree, t: Tree, vs: seq<Value>, v: Value)
    requires LinksOnly(m, m', changed) && Items(m, a.kids, vs) && Is(m.nodes, m.strings, t, v)
    ensures Items(m', a.kids + [t], vs + [v])
  {
    FrameItems(m, m', a.kids, vs);
    Single(m.nodes, t);
    FrameIs(m, m', t, v);
  }

  /** After cJSON_DeleteItemFromArray the array is the old one without the value at the position. */
  lemma DeletedItems(m: Mem, m': Mem, a: Tree, i: int, vs: seq<Value>)
    requires List(m, a) && 0 <= i < |a.kids| && Deleted(m, m', a.kids[i]) && Items(m, a.kids, vs)
    ensures Items(m', Without(a.kids, i), Without(vs, i))
  {
    TakeOut(m.nodes, a.kids, i);
    assert Items(m, Without(a.kids, i), Without(vs, i));
    KeptApart(m, m', Without(a.kids, i), a.kids[i], a);
    FrameItems(m, m', Without(a.kids, i), Without(vs, i));
  }

  lemma KeptApart(m: Mem, m': Mem, ts: seq<Tree>, t: Tree, a: Tree)
    requires Deleted(m, m', t) && Mine(m, a) && CellsAll(ts) <= CellsAll(a.kids)
    requires CellsAll(ts) !! Cells(t) && TextsAll(ts) !! Texts(t)
    ensures KeepsOwn(m, m', ts)
  {
    assert CellsAll(a.kids) <= Cells(a);
  }

  /** After cJSON_ReplaceItemInArray the array is the old one with the new value at the position. */
  lemma ReplacedItems(m: Mem, m': Mem, a: Tree, i: int, t: Tree, vs: seq<Value>, v: Value)
    requires List(m, a) && 0 <= i < |a.kids| && Mine(m, t) && Apart(a, t)
    requires Deleted(m, m', a.kids[i]) && Items(m, a.kids, vs) && Is(m.nodes, m.strings, t, v)
    ensures Items(m', a.kids[i := t], vs[i := v])
  {
    DeletedItems(m, m', a, i, vs);
    InList(a.kids, i);
    assert Cells(a.kids[i]) <= Cells(a) && Texts(a.kids[i]) <= Texts(a);
    FrameIs(m, m', t, v);
    PutBack(m', a.kids, i, t, vs, v);
  }

  lemma PutBack(m: Mem, ts: seq<Tree>, i: int, t: Tree, vs: seq<Value>, v: Value)
    requires 0 <= i < |ts| == |vs| && Items(m, Without(ts, i), Without(vs, i)) && Is(m.nodes, m.strings, t, v)
    ensures Items(m, ts[i := t], vs[i := v])
  {
    var us, ws := Without(ts, i), Without(vs, i);
    var us', ws' := ts[i := t], vs[i := v];
    forall j | 0 <= j < |vs| ensures Is(m.nodes, m.strings, us'[j], ws'[j]) {
      if j != i {
        var k := if j < i then j else j - 1;
        assert us[k] == ts[j] && ws[k] == vs[j];
      }
    }
  }
}
