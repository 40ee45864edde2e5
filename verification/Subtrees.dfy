/** Trees below a root, at any depth: reaching them, and what a change of one of them does to the tree around it. */
module Subtrees {
  import opened Sequences
  import opened Memory
  import opened Heaps
  import opened Trees
  import opened ChildLists

  /** A path gives the position of a child on every level. */
  predicate Reaches(t: Tree, path: seq<nat>)
    decreases |path|
  {
    path == [] || (path[0] < |t.kids| && Reaches(t.kids[path[0]], path[1..]))
  }

  function Sub(t: Tree, path: seq<nat>): Tree
    requires Reaches(t, path)
    decreases |path|
  {
    if path == [] then t else Sub(t.kids[path[0]], path[1..])
  }

  /** The tree with u in the place of the subtree at the path. */
  ghost function Put(t: Tree, path: seq<nat>, u: Tree): Tree
    requires Reaches(t, path)
    decreases |path|
  {
    if path == [] then u else WithList(t, t.kids[path[0] := Put(t.kids[path[0]], path[1..], u)])
  }

  lemma KidOf(m: Mem, t: Tree, i: int)
    requires Mine(m, t) && 0 <= i < |t.kids|
    ensures Mine(m, t.kids[i]) && Cells(t.kids[i]) <= Cells(t) && Texts(t.kids[i]) <= Texts(t)
    ensures t.addr !in Cells(t.kids[i])
  {
    TakeOut(m.nodes, t.kids, i);
    InList(t.kids, i);
  }

  lemma {:induction false} SubMine(m: Mem, t: Tree, path: seq<nat>)
    requires Mine(m, t) && Reaches(t, path)
    ensures Mine(m, Sub(t, path)) && Cells(Sub(t, path)) <= Cells(t) && Texts(Sub(t, path)) <= Texts(t)
    decreases |path|
  {
    if path == [] {
    } else {
      KidOf(m, t, path[0]);
      SubMine(m, t.kids[path[0]], path[1..]);
    }
  }

  /** What a reader finds below a node, level by level. A reference shows the children of its target. */
  ghost predicate Shown(nodes: map<Ptr, Node>, t: Tree) { Lists(nodes, t.addr, t.kids) && ShownAll(nodes, t.kids) }

  ghost predicate ShownAll(nodes: map<Ptr, Node>, ts: seq<Tree>) {
    ts == [] || (Shown(nodes, ts[0]) && ShownAll(nodes, ts[1..]))
  }

  lemma {:induction false} ShownKid(nodes: map<Ptr, Node>, ts: seq<Tree>, i: nat)
    requires ShownAll(nodes, ts) && i < |ts|
    ensures Shown(nodes, ts[i])
  {
    if i > 0 {
      ShownKid(nodes, ts[1..], i - 1);
    }
  }

  /** `cJSON_GetArrayItem` level by level: the node at the path, or null if there is none. */
  method Walk(h: Heap, root: Ptr, path: seq<nat>, ghost t: Tree) returns (n: Ptr)
    requires root == t.addr != Nil && Shown(h.nodes, t)
    ensures if Reaches(t, path) then n == Sub(t, path).addr && n != Nil else n == Nil
    decreases |path|
  {
    if path == [] {
      return root;
    }
    n := GetArrayItem(h, root, path[0], t.kids);
    if n != Nil {
      ShownKid(h.nodes, t.kids, path[0]);
      n := Walk(h, n, path[1..], t.kids[path[0]]);
    }
  }

  /** A tree without references shows what it owns ... */
  lemma {:induction false} OwnersShow(m: Mem, t: Tree)
    requires Mine(m, t) && forall k <- Cells(t) :: k in m.nodes && !m.nodes[k].reference
    ensures Shown(m.nodes, t) && t.addr != Nil
    decreases t
  {
    assert t.addr in Cells(t);
    OwnList(m, t);
    forall i | 0 <= i < |t.kids| ensures Shown(m.nodes, t.kids[i]) {
      KidOf(m, t, i);
      OwnersShow(m, t.kids[i]);
    }
    AllShown(m.nodes, t.kids);
  }

  lemma {:induction false} AllShown(nodes: map<Ptr, Node>, ts: seq<Tree>)
    requires forall i | 0 <= i < |ts| :: Shown(nodes, ts[i])
    ensures ShownAll(nodes, ts)
  {
    if ts != [] {
      forall i | 0 <= i < |ts| - 1 ensures Shown(nodes, ts[1..][i]) {
        assert ts[1..][i] == ts[i + 1];
      }
      AllShown(nodes, ts[1..]);
    }
  }

  /** ... and a copy of its root, as cJSON_AddItemReferenceToArray makes it, shows the same children. */
  lemma CopiesShow(nodes: map<Ptr, Node>, t: Tree, r: Ptr)
    requires Shown(nodes, t) && r in nodes && nodes[r].child == nodes[t.addr].child
    ensures Shown(nodes, Tree(r, NoRef, NoRef, t.kids))
  {
  }

  // ---- a change below ----

  /** The tree u has become u': the root has another first child at most, and keeps its name and its links. */
  ghost predicate Regrows(nodes: map<Ptr, Node>, nodes': map<Ptr, Node>, u: Tree, u': Tree) {
    && u'.addr == u.addr && u'.name == u.name && Owns(nodes', u') && Disjoint(u')
    && u.addr in nodes && u.addr in nodes' && nodes'[u.addr] == nodes[u.addr].(child := nodes'[u.addr].child)
  }

  ghost predicate SameBut(nodes: map<Ptr, Node>, nodes': map<Ptr, Node>, cells: set<Ptr>, u: Tree) {
    forall n <- cells | n !in Cells(u) :: n in nodes && n in nodes' && nodes'[n] == nodes[n]
  }

  /** What u' owns and u did not is not owned by the tree around u. */
  ghost predicate Foreign(cells: set<Ptr>, texts: set<int>, u: Tree, u': Tree) {
    Cells(u') !! cells - Cells(u) && Texts(u') !! texts - Texts(u)
  }

  /** The links of the other children still hold when one child changes below its links. */
  lemma KidLinks(nodes: map<Ptr, Node>, nodes': map<Ptr, Node>, t: Tree, i: int, u': Tree)
    requires Owns(nodes, t) && Disjoint(t) && 0 <= i < |t.kids| && Regrows(nodes, nodes', t.kids[i], u')
    requires SameBut(nodes, nodes', Cells(t), t.kids[i])
    ensures Linked(nodes', t.kids[i := u'])
  {
    var ts, us := t.kids, t.kids[i := u'];
    forall j | 0 <= j < |us| ensures LinkedAt(nodes', us, j) {
      OnList(nodes, t, j);
      DistinctFrom(ts, i, j);
      assert ts[j].addr in Cells(ts[j]);
      assert Top(us, j + 1) == Top(ts, j + 1) && Top(us, j - 1) == Top(ts, j - 1);
    }
  }

  /** A change of one child leaves the rest of the list. */
  lemma KidInList(nodes: map<Ptr, Node>, nodes': map<Ptr, Node>, ts: seq<Tree>, i: int, u': Tree)
    requires OwnsAll(nodes, ts) && DisjointAll(ts) && 0 <= i < |ts| && Regrows(nodes, nodes', ts[i], u')
    requires SameBut(nodes, nodes', CellsAll(ts), ts[i]) && Foreign(CellsAll(ts), TextsAll(ts), ts[i], u')
    ensures OwnsAll(nodes', ts[i := u']) && DisjointAll(ts[i := u'])
    ensures CellsAll(ts[i := u']) == CellsAll(ts) - Cells(ts[i]) + Cells(u')
    ensures TextsAll(ts[i := u']) == TextsAll(ts) - Texts(ts[i]) + Texts(u')
  {
    TakeOut(nodes, ts, i);
    FrameTrees(nodes, nodes', Without(ts, i));
    PutIn(nodes', ts, i, u');
  }

  /** A child changes: the tree around it is well formed with the new child. */
  lemma GraftKid(nodes: map<Ptr, Node>, nodes': map<Ptr, Node>, t: Tree, i: int, u': Tree)
    requires Owns(nodes, t) && Disjoint(t) && 0 <= i < |t.kids| && Regrows(nodes, nodes', t.kids[i], u')
    requires SameBut(nodes, nodes', Cells(t), t.kids[i]) && Foreign(Cells(t), Texts(t), t.kids[i], u')
    ensures var t' := WithList(t, t.kids[i := u']);
            && Regrows(nodes, nodes', t, t')
            && Cells(t') == Cells(t) - Cells(t.kids[i]) + Cells(u')
            && Texts(t') == Texts(t) - Texts(t.kids[i]) + Texts(u')
  {
    InList(t.kids, i);
    assert CellsAll(t.kids) <= Cells(t) && TextsAll(t.kids) <= Texts(t);
    KidInList(nodes, nodes', t.kids, i, u');
    KidLinks(nodes, nodes', t, i, u');
    GraftSets(t, i, u');
    assert t.addr in Cells(t) && t.addr !in Cells(t.kids[i]);
    assert Top(t.kids[i := u'], 0) == Top(t.kids, 0);
  }

  lemma GraftSets(t: Tree, i: int, u': Tree)
    requires Disjoint(t) && 0 <= i < |t.kids| && Foreign(Cells(t), Texts(t), t.kids[i], u')
    requires DisjointAll(t.kids[i := u'])
    requires CellsAll(t.kids[i := u']) == CellsAll(t.kids) - Cells(t.kids[i]) + Cells(u')
    requires TextsAll(t.kids[i := u']) == TextsAll(t.kids) - Texts(t.kids[i]) + Texts(u')
    ensures var t' := WithList(t, t.kids[i := u']);
            && Disjoint(t')
            && Cells(t') == Cells(t) - Cells(t.kids[i]) + Cells(u')
            && Texts(t') == Texts(t) - Texts(t.kids[i]) + Texts(u')
  {
    InList(t.kids, i);
    var own := RefSet(t.text) + RefSet(t.name);
    assert t.addr in Cells(t) && t.addr !in Cells(t.kids[i]);
    assert own <= Texts(t) && own !! Texts(t.kids[i]);
  }

  /** A subtree at any depth changes: the whole tree is well formed with the new subtree, and its root has
      another first child at most. */
  lemma {:induction false} Graft(m: Mem, nodes': map<Ptr, Node>, t: Tree, path: seq<nat>, u': Tree)
    requires Mine(m, t) && Reaches(t, path) && Regrows(m.nodes, nodes', Sub(t, path), u')
    requires SameBut(m.nodes, nodes', Cells(t), Sub(t, path)) && Foreign(Cells(t), Texts(t), Sub(t, path), u')
    ensures var t', u := Put(t, path, u'), Sub(t, path);
            && Regrows(m.nodes, nodes', t, t')
            && Cells(t') == Cells(t) - Cells(u) + Cells(u') && Texts(t') == Texts(t) - Texts(u) + Texts(u')
    decreases |path|
  {
    if path == [] {
    } else {
      var i := path[0];
      var kid, kid', u := t.kids[i], Put(t.kids[i], path[1..], u'), Sub(t, path);
      KidOf(m, t, i);
      SubMine(m, kid, path[1..]);
      Graft(m, nodes', kid, path[1..], u');
      GraftKid(m.nodes, nodes', t, i, kid');
    }
  }
}
