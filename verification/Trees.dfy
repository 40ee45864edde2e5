/** Trees of nodes in memory, the memory they own, and cJSON_Delete. */
module Trees {
  import opened Sequences
  import opened Memory
  import opened Heaps

  /** A node, the strings it owns (`valuestring` and `string`), and its child list. */
  datatype Tree = Tree(addr: Ptr, text: Ref, name: Ref, kids: seq<Tree>)

  /** The address of the i-th tree of a list; null outside the list. */
  function Top(ts: seq<Tree>, i: int): Ptr { if 0 <= i < |ts| then ts[i].addr else Nil }

  /** The i-th node of a child list is doubly linked to its neighbours. */
  ghost predicate LinkedAt(nodes: map<Ptr, Node>, ts: seq<Tree>, i: int)
    requires 0 <= i < |ts|
  {
    && ts[i].addr in nodes
    && nodes[ts[i].addr].next == Top(ts, i + 1) && nodes[ts[i].addr].prev == Top(ts, i - 1)
  }

  ghost predicate Linked(nodes: map<Ptr, Node>, ts: seq<Tree>) {
    forall i | 0 <= i < |ts| :: LinkedAt(nodes, ts, i)
  }

  /** The node owns what the tree says. A reference node borrows its child list and its valuestring
      from another node and owns neither. */
  ghost predicate NodeOwns(nodes: map<Ptr, Node>, t: Tree) {
    && t.addr != Nil && t.addr in nodes
    && var n := nodes[t.addr];
       && n.name == t.name
       && (if n.reference then t.text == NoRef && t.kids == []
           else t.text == n.valuestring && n.child == Top(t.kids, 0))
  }

  ghost predicate Owns(nodes: map<Ptr, Node>, t: Tree) {
    NodeOwns(nodes, t) && Linked(nodes, t.kids) && OwnsAll(nodes, t.kids)
  }

  ghost predicate OwnsAll(nodes: map<Ptr, Node>, ts: seq<Tree>) {
    ts == [] || (Owns(nodes, ts[0]) && OwnsAll(nodes, ts[1..]))
  }

  function RefSet(r: Ref): set<int> { if r.Ref? then {r.id} else {} }

  /** The nodes and the strings of a tree. */
  function Cells(t: Tree): set<Ptr> { {t.addr} + CellsAll(t.kids) }

  function CellsAll(ts: seq<Tree>): set<Ptr> { if ts == [] then {} else Cells(ts[0]) + CellsAll(ts[1..]) }

  function Texts(t: Tree): set<int> { RefSet(t.text) + RefSet(t.name) + TextsAll(t.kids) }

  function TextsAll(ts: seq<Tree>): set<int> { if ts == [] then {} else Texts(ts[0]) + TextsAll(ts[1..]) }

  /** No node and no string is owned twice. */
  ghost predicate Disjoint(t: Tree) {
    && t.addr !in CellsAll(t.kids)
    && RefSet(t.text) !! RefSet(t.name) && RefSet(t.text) + RefSet(t.name) !! TextsAll(t.kids)
    && DisjointAll(t.kids)
  }

  ghost predicate DisjointAll(ts: seq<Tree>) {
    ts == [] ||
    (&& Disjoint(ts[0]) && DisjointAll(ts[1..])
     && Cells(ts[0]) !! CellsAll(ts[1..]) && Texts(ts[0]) !! TextsAll(ts[1..]))
  }

  /** The nodes in the order in which cJSON_Delete gives them back: children before their parent. */
  function Order(t: Tree): seq<Ptr> { OrderAll(t.kids) + [t.addr] }

  function OrderAll(ts: seq<Tree>): seq<Ptr> { if ts == [] then [] else Order(ts[0]) + OrderAll(ts[1..]) }

  function Size(ts: seq<Tree>): nat { if ts == [] then 0 else 1 + Size(ts[0].kids) + Size(ts[1..]) }

  /** The order names every node of the list exactly once. */
  lemma {:induction false} OrderOnce(ts: seq<Tree>)
    requires DisjointAll(ts)
    ensures NoDuplicates(OrderAll(ts)) && forall n :: n in OrderAll(ts) <==> n in CellsAll(ts)
    decreases ts
  {
    if ts == [] {
    } else {
      var t := ts[0];
      OrderOnce(t.kids);
      OrderOnce(ts[1..]);
      Distinct(OrderAll(t.kids), [t.addr]);
      Distinct(Order(t), OrderAll(ts[1..]));
    }
  }

  lemma Distinct(a: seq<Ptr>, b: seq<Ptr>)
    requires NoDuplicates(a) && NoDuplicates(b) && forall n <- a :: n !in b
    ensures NoDuplicates(a + b)
  {
    forall i, j | 0 <= i < j < |a + b| ensures (a + b)[i] != (a + b)[j] {
      if i < |a| <= j {
        assert (a + b)[i] in a && (a + b)[j] in b;
      }
    }
  }

  /** In the order, every root follows directly on the nodes below it. */
  lemma {:induction false} RootBehindKids(ts: seq<Tree>, i: int) returns (before: seq<Ptr>, behind: seq<Ptr>)
    requires 0 <= i < |ts|
    ensures OrderAll(ts) == before + Order(ts[i]) + behind
  {
    if i == 0 {
      before, behind := [], OrderAll(ts[1..]);
    } else {
      before, behind := RootBehindKids(ts[1..], i - 1);
      RegroupFour(Order(ts[0]), before, Order(ts[i]), behind);
      before := Order(ts[0]) + before;
    }
  }

  lemma RegroupFour(a: seq<Ptr>, b: seq<Ptr>, c: seq<Ptr>, d: seq<Ptr>)
    ensures a + (b + c + d) == a + b + c + d
  {
  }

  // ---- framing ----

  lemma {:induction false} FrameTrees(nodes: map<Ptr, Node>, nodes': map<Ptr, Node>, ts: seq<Tree>)
    requires OwnsAll(nodes, ts)
    requires forall n <- CellsAll(ts) | n in nodes :: n in nodes' && nodes'[n] == nodes[n]
    ensures OwnsAll(nodes', ts)
    decreases ts
  {
    if ts == [] {
    } else {
      FrameTree(nodes, nodes', ts[0]);
      FrameTrees(nodes, nodes', ts[1..]);
    }
  }

  lemma {:induction false} FrameTree(nodes: map<Ptr, Node>, nodes': map<Ptr, Node>, t: Tree)
    requires Owns(nodes, t)
    requires forall n <- Cells(t) | n in nodes :: n in nodes' && nodes'[n] == nodes[n]
    ensures Owns(nodes', t)
    decreases t
  {
    FrameTrees(nodes, nodes', t.kids);
    FrameLinks(nodes, nodes', t.kids);
  }

  lemma FrameLinks(nodes: map<Ptr, Node>, nodes': map<Ptr, Node>, ts: seq<Tree>)
    requires Linked(nodes, ts)
    requires forall n <- CellsAll(ts) | n in nodes :: n in nodes' && nodes'[n] == nodes[n]
    ensures Linked(nodes', ts)
  {
    forall i | 0 <= i < |ts| ensures LinkedAt(nodes', ts, i) {
      assert LinkedAt(nodes, ts, i);
      InList(ts, i);
    }
  }

  lemma {:induction false} InList(ts: seq<Tree>, i: int)
    requires 0 <= i < |ts|
    ensures ts[i].addr in CellsAll(ts) && Cells(ts[i]) <= CellsAll(ts) && Texts(ts[i]) <= TextsAll(ts)
  {
    if i == 0 {
    } else {
      assert ts[1..][i - 1] == ts[i];
      InList(ts[1..], i - 1);
    }
  }

  lemma {:induction false} OwnedKid(nodes: map<Ptr, Node>, ts: seq<Tree>, i: int)
    requires OwnsAll(nodes, ts) && 0 <= i < |ts|
    ensures Owns(nodes, ts[i])
  {
    if i == 0 {
    } else {
      OwnedKid(nodes, ts[1..], i - 1);
    }
  }

  /** The i-th node of a list leads to the next one. This is all that cJSON_Delete reads. */
  ghost predicate NextAt(nodes: map<Ptr, Node>, ts: seq<Tree>, i: int)
    requires 0 <= i < |ts|
  {
    ts[i].addr in nodes && nodes[ts[i].addr].next == Top(ts, i + 1)
  }

  ghost predicate Chained(nodes: map<Ptr, Node>, ts: seq<Tree>) {
    forall i | 0 <= i < |ts| :: NextAt(nodes, ts, i)
  }

  lemma LinkedIsChained(nodes: map<Ptr, Node>, ts: seq<Tree>)
    requires Linked(nodes, ts)
    ensures Chained(nodes, ts)
  {
    forall i | 0 <= i < |ts| ensures NextAt(nodes, ts, i) {
      assert LinkedAt(nodes, ts, i);
    }
  }

  lemma ChainedTail(nodes: map<Ptr, Node>, nodes': map<Ptr, Node>, ts: seq<Tree>)
    requires Chained(nodes, ts) && ts != []
    requires forall n <- CellsAll(ts[1..]) | n in nodes :: n in nodes' && nodes'[n] == nodes[n]
    ensures Chained(nodes', ts[1..])
  {
    forall i | 0 <= i < |ts| - 1 ensures NextAt(nodes', ts[1..], i) {
      assert NextAt(nodes, ts, i + 1);
      assert ts[1..][i] == ts[i + 1] && Top(ts[1..], i + 1) == Top(ts, i + 2);
      InList(ts[1..], i);
    }
  }

  /** A tree without siblings, seen as a list. */
  lemma OnlyTree(nodes: map<Ptr, Node>, t: Tree)
    requires Owns(nodes, t) && Disjoint(t) && nodes[t.addr].next == Nil
    ensures Chained(nodes, [t]) && OwnsAll(nodes, [t]) && DisjointAll([t])
    ensures CellsAll([t]) == Cells(t) && TextsAll([t]) == Texts(t) && OrderAll([t]) == Order(t)
  {
    assert [t][0] == t && [t][1..] == [];
    assert DisjointAll([t][1..]) && CellsAll([t][1..]) == {} && TextsAll([t][1..]) == {};
    assert NextAt(nodes, [t], 0);
  }

  // ---- cJSON_Delete ----

  /** What a list of trees needs to be deleted: it is chained, owns nothing twice, and everything it
      owns is in use. */
  ghost predicate Deletable(h: Heap, ts: seq<Tree>)
    reads h
  {
    && Chained(h.nodes, ts) && OwnsAll(h.nodes, ts) && DisjointAll(ts)
    && CellsAll(ts) <= h.live && TextsAll(ts) <= h.strings.Keys
  }

  /** The first tree of a list, opened up. */
  lemma OpenFirst(h: Heap, ts: seq<Tree>)
    requires Deletable(h, ts) && ts != []
    ensures var t := ts[0];
            && NodeOwns(h.nodes, t) && Linked(h.nodes, t.kids) && Deletable(h, t.kids)
            && t.addr in h.live && t.addr !in CellsAll(t.kids)
            && RefSet(t.text) !! RefSet(t.name) && RefSet(t.text) + RefSet(t.name) !! TextsAll(t.kids)
            && RefSet(t.text) + RefSet(t.name) <= h.strings.Keys
            && Cells(t) !! CellsAll(ts[1..]) && Texts(t) !! TextsAll(ts[1..])
            && Texts(t) == RefSet(t.text) + RefSet(t.name) + TextsAll(t.kids)
    ensures CellsAll(ts) == Cells(ts[0]) + CellsAll(ts[1..]) && TextsAll(ts) == Texts(ts[0]) + TextsAll(ts[1..])
    ensures OwnsAll(h.nodes, ts[1..]) && DisjointAll(ts[1..])
  {
    var t := ts[0];
    assert Owns(h.nodes, t) && Disjoint(t);
    assert Cells(t) == {t.addr} + CellsAll(t.kids);
    assert Texts(t) == RefSet(t.text) + RefSet(t.name) + TextsAll(t.kids);
    LinkedIsChained(h.nodes, t.kids);
  }

  /** From m to m' exactly these nodes and strings have been given back, and of the pools concerned those
      that have no live node left. */
  ghost predicate GivenBack(m: Mem, m': Mem, cells: set<Ptr>, texts: set<int>) {
    && m'.live == m.live - cells && m'.strings == m.strings - texts
    && (forall k <- m'.live :: k in m.nodes && k in m'.nodes && m'.nodes[k] == m.nodes[k])
    && Released(m.pools, cells, m'.pools, m'.live)
  }

  /** Gives back exactly what the list owns, every node and every string once, children before their
      parent, and reads no node that has been given back. Nothing else in use changes. */
  method Delete(h: Heap, first: Ptr, ghost ts: seq<Tree>)
    requires h.Valid() && first == Top(ts, 0) && Deletable(h, ts)
    modifies h`nodes, h`strings, h`pools, h`live, h`used, h`free, h`freed, h`destroyed
    ensures h.Valid() && GivenBack(old(h.View()), h.View(), CellsAll(ts), TextsAll(ts))
    ensures h.freed == old(h.freed) + OrderAll(ts)
    decreases Size(ts), 2
  {
    var c := first;
    ghost var m0, rest, cells, texts, order := h.View(), ts, {}, {}, [];
    NothingGivenBack(m0);
    while c != Nil
      invariant h.Valid() && c == Top(rest, 0) && Deletable(h, rest) && Size(rest) <= Size(ts)
      invariant GivenBack(m0, h.View(), cells, texts)
      invariant cells + CellsAll(rest) == CellsAll(ts) && texts + TextsAll(rest) == TextsAll(ts)
      invariant h.freed == old(h.freed) + order && order + OrderAll(rest) == OrderAll(ts)
      decreases Size(rest)
    {
      Regroup(cells, texts, order, rest);
      c := DeleteFirst(h, c, rest, m0, cells, texts);
      RegroupOrder(old(h.freed), order, Order(rest[0]), OrderAll(rest[1..]));
      cells, texts, order := cells + Cells(rest[0]), texts + Texts(rest[0]), order + Order(rest[0]);
      rest := rest[1..];
    }
    ListEnds(h.nodes, rest, cells, texts, order);
  }

  lemma ListEnds(nodes: map<Ptr, Node>, rest: seq<Tree>, cells: set<Ptr>, texts: set<int>, order: seq<Ptr>)
    requires OwnsAll(nodes, rest) && Top(rest, 0) == Nil
    ensures cells + CellsAll(rest) == cells && texts + TextsAll(rest) == texts && order + OrderAll(rest) == order
  {
    assert rest == [];
  }

  lemma NothingGivenBack(m: Mem)
    requires m.live <= m.nodes.Keys
    ensures GivenBack(m, m, {}, {})
  {
  }

  lemma GivenBackTwice(m0: Mem, m: Mem, m': Mem, cells: set<Ptr>, texts: set<int>, more: set<Ptr>, moreTexts: set<int>)
    requires GivenBack(m0, m, cells, texts) && GivenBack(m, m', more, moreTexts)
    requires Consistent(m) && more <= m.live
    ensures GivenBack(m0, m', cells + more, texts + moreTexts)
  {
    LiveInPools(m);
    ReleasedTwice(m0.pools, cells, m.pools, m.live, more, m'.pools, m'.live);
    assert m'.live == m0.live - (cells + more);
    assert m'.strings == m0.strings - (texts + moreTexts);
  }

  /** What one turn deletes, added to what the turns before it have deleted. */
  lemma Regroup(cells: set<Ptr>, texts: set<int>, order: seq<Ptr>, rest: seq<Tree>)
    requires rest != []
    ensures cells + CellsAll(rest) == cells + Cells(rest[0]) + CellsAll(rest[1..])
    ensures texts + TextsAll(rest) == texts + Texts(rest[0]) + TextsAll(rest[1..])
    ensures Size(rest[1..]) < Size(rest)
  {
  }

  lemma RegroupOrder(freed: seq<Ptr>, gone: seq<Ptr>, now: seq<Ptr>, later: seq<Ptr>)
    ensures freed + gone + now == freed + (gone + now) && gone + (now + later) == gone + now + later
  {
  }

  /** `next = c->next`, and the deletion of c. */
  method DeleteFirst(h: Heap, c: Ptr, ghost rest: seq<Tree>, ghost m0: Mem, ghost cells: set<Ptr>,
                     ghost texts: set<int>)
    returns (next: Ptr)
    requires h.Valid() && rest != [] && c == rest[0].addr && Deletable(h, rest) && GivenBack(m0, h.View(), cells, texts)
    modifies h`nodes, h`strings, h`pools, h`live, h`used, h`free, h`freed, h`destroyed
    ensures h.Valid() && GivenBack(m0, h.View(), cells + Cells(rest[0]), texts + Texts(rest[0]))
    ensures h.freed == old(h.freed) + Order(rest[0])
    ensures Deletable(h, rest[1..]) && next == Top(rest[1..], 0)
    decreases Size(rest), 1
  {
    assert NextAt(h.nodes, rest, 0);
    next := h.nodes[c].next;
    OpenFirst(h, rest);
    ghost var m := h.View();
    DeleteNode(h, c, rest);
    GivenBackTwice(m0, m, h.View(), cells, texts, Cells(rest[0]), Texts(rest[0]));
  }

  /** One turn of the loop of cJSON_Delete. */
  method DeleteNode(h: Heap, c: Ptr, ghost ts: seq<Tree>)
    requires h.Valid() && ts != [] && c == ts[0].addr && Deletable(h, ts)
    modifies h`nodes, h`strings, h`pools, h`live, h`used, h`free, h`freed, h`destroyed
    ensures h.Valid() && GivenBack(old(h.View()), h.View(), Cells(ts[0]), Texts(ts[0]))
    ensures h.freed == old(h.freed) + Order(ts[0])
    ensures Deletable(h, ts[1..])
    decreases Size(ts), 0
  {
    ghost var t := ts[0];
    OpenFirst(h, ts);
    var node := h.nodes[c];
    if !node.reference && node.child != Nil {
      Delete(h, node.child, t.kids);
    } else {
      NothingDeleted(h.View(), h.freed, t);
    }
    DeleteOne(h, c, node, old(h.View()), old(h.freed), ts);
    FrameRest(old(h.nodes), h.nodes, ts, h.live);
  }

  /** The strings of the node and the node, when its children have gone. */
  method DeleteOne(h: Heap, c: Ptr, node: Node, ghost m0: Mem, ghost freed0: seq<Ptr>, ghost ts: seq<Tree>)
    requires h.Valid() && ts != [] && c == ts[0].addr && c in h.live && c !in CellsAll(ts[0].kids)
    requires node.name == ts[0].name && ts[0].text == (if node.reference then NoRef else node.valuestring)
    requires RefSet(ts[0].text) !! RefSet(ts[0].name) && RefSet(ts[0].text) + RefSet(ts[0].name) <= h.strings.Keys
    requires GivenBack(m0, h.View(), CellsAll(ts[0].kids), TextsAll(ts[0].kids))
    requires h.freed == freed0 + OrderAll(ts[0].kids)
    modifies h`nodes, h`strings, h`pools, h`live, h`used, h`free, h`freed, h`destroyed
    ensures h.Valid() && GivenBack(m0, h.View(), Cells(ts[0]), Texts(ts[0])) && h.freed == freed0 + Order(ts[0])
  {
    ghost var m, t := h.View(), ts[0];
    FreeStrings(h, node, t);
    h.FreeItem(c);
    assert GivenBack(m, h.View(), {c}, RefSet(t.text) + RefSet(t.name));
    GivenBackTwice(m0, m, h.View(), CellsAll(t.kids), TextsAll(t.kids), {c}, RefSet(t.text) + RefSet(t.name));
    DeletedNode(freed0, t);
  }

  lemma NothingDeleted(m: Mem, freed: seq<Ptr>, t: Tree)
    requires t.kids == [] && m.live <= m.nodes.Keys
    ensures GivenBack(m, m, CellsAll(t.kids), TextsAll(t.kids)) && freed == freed + OrderAll(t.kids)
  {
  }

  /** The pieces that one turn gives back make up the tree. */
  lemma DeletedNode(freed: seq<Ptr>, t: Tree)
    ensures CellsAll(t.kids) + {t.addr} == Cells(t)
    ensures TextsAll(t.kids) + (RefSet(t.text) + RefSet(t.name)) == Texts(t)
    ensures freed + OrderAll(t.kids) + [t.addr] == freed + Order(t)
  {
  }

  /** The name, and the valuestring unless the node is a reference. */
  method FreeStrings(h: Heap, node: Node, ghost t: Tree)
    requires h.Valid() && node.name == t.name && t.text == (if node.reference then NoRef else node.valuestring)
    requires RefSet(t.text) !! RefSet(t.name) && RefSet(t.text) + RefSet(t.name) <= h.strings.Keys
    modifies h`strings
    ensures h.Valid() && h.strings == old(h.strings) - (RefSet(t.text) + RefSet(t.name))
  {
    if !node.reference && node.valuestring != NoRef {
      h.FreeString(node.valuestring.id);
    }
    if node.name != NoRef {
      h.FreeString(node.name.id);
    }
  }

  lemma FrameRest(nodes: map<Ptr, Node>, nodes': map<Ptr, Node>, ts: seq<Tree>, live: set<Ptr>)
    requires ts != [] && Chained(nodes, ts) && OwnsAll(nodes, ts[1..])
    requires CellsAll(ts[1..]) <= live && forall k <- live :: k in nodes && k in nodes' && nodes'[k] == nodes[k]
    ensures Chained(nodes', ts[1..]) && OwnsAll(nodes', ts[1..])
  {
    ChainedTail(nodes, nodes', ts);
    FrameTrees(nodes, nodes', ts[1..]);
  }
}
