/** Any series of operations on a child list acts on it as on a sequence. */
module ListSeries {
  import opened Sequences
  import opened Memory
  import opened Heaps
  import opened Trees
  import opened ChildLists

  /** A call of cJSON_AddItemToArray, cJSON_DetachItemFromArray, cJSON_DeleteItemFromArray or
      cJSON_ReplaceItemInArray. New items are the k-th of those the caller holds. */
  datatype Call = Append(k: nat) | Detach(which: int) | Delete(which: int) | Replace(which: int, k: nat)

  /** The children of the list, the items in the caller's hands, and the items deleted so far. */
  datatype State = State(kids: seq<Tree>, items: seq<Tree>, gone: seq<Tree>)

  /** The caller holds the item it wants to put into the list. */
  predicate Fits(s: State, c: Call) { c.Append? || c.Replace? ==> c.k < |s.items| }

  /** What a call does, read on sequences. */
  function Apply(s: State, c: Call): State
    requires Fits(s, c)
  {
    match c
    case Append(k) => State(s.kids + [s.items[k]], Without(s.items, k), s.gone)
    case Detach(which) =>
      var i := Position(which);
      if i < |s.kids| then State(Without(s.kids, i), s.items + [s.kids[i]], s.gone) else s
    case Delete(which) =>
      var i := Position(which);
      if i < |s.kids| then State(Without(s.kids, i), s.items, s.gone + [s.kids[i]]) else s
    case Replace(which, k) =>
      var i := Position(which);
      if i < |s.kids| then State(s.kids[i := s.items[k]], Without(s.items, k), s.gone + [s.kids[i]]) else s
  }

  predicate FitsAll(s: State, calls: seq<Call>)
    decreases calls
  {
    calls == [] || (Fits(s, calls[0]) && FitsAll(Apply(s, calls[0]), calls[1..]))
  }

  function ApplyAll(s: State, calls: seq<Call>): State
    requires FitsAll(s, calls)
    decreases calls
  {
    if calls == [] then s else ApplyAll(Apply(s, calls[0]), calls[1..])
  }

  /** Every tree is at any time in exactly one place: in the list, with the caller, or deleted. */
  lemma {:induction false} Conserved(s: State, calls: seq<Call>)
    requires FitsAll(s, calls)
    ensures Everything(ApplyAll(s, calls)) == Everything(s)
    decreases calls
  {
    if calls == [] {
    } else {
      ConservedOnce(s, calls[0]);
      Conserved(Apply(s, calls[0]), calls[1..]);
    }
  }

  function Everything(s: State): multiset<Tree> { multiset(s.kids) + multiset(s.items) + multiset(s.gone) }

  lemma ConservedOnce(s: State, c: Call)
    requires Fits(s, c)
    ensures Everything(Apply(s, c)) == Everything(s)
  {
    match c
    case Append(k) => Moved(s.items, k);
    case Detach(which) => if Position(which) < |s.kids| { Moved(s.kids, Position(which)); }
    case Delete(which) => if Position(which) < |s.kids| { Moved(s.kids, Position(which)); }
    case Replace(which, k) =>
      if Position(which) < |s.kids| {
        Moved(s.items, k);
      }
  }

  lemma Moved(ts: seq<Tree>, i: int)
    requires 0 <= i < |ts|
    ensures multiset(ts) == multiset(Without(ts, i)) + multiset{ts[i]}
  {
    assert ts == ts[..i] + [ts[i]] + ts[i + 1..];
  }

  // ---- the list, and the items in the caller's hands ----

  /** An item that can go into the list a: in no list, and apart from a. */
  ghost predicate Waits(m: Mem, a: Tree, t: Tree) { Loose(m, t) && Apart(a, t) }

  ghost predicate Supplied(m: Mem, a: Tree, items: seq<Tree>) {
    && (forall i | 0 <= i < |items| :: Waits(m, a, items[i]))
    && (forall i, j | 0 <= i < |items| && 0 <= j < |items| && i != j :: Apart(items[i], items[j]))
  }

  ghost predicate Represents(m: Mem, a: Tree, s: State) {
    List(m, WithList(a, s.kids)) && Supplied(m, WithList(a, s.kids), s.items)
  }

  lemma PointersWith(ps: seq<Ptr>, items: seq<Tree>, c: Ptr, ts: seq<Tree>, i: int)
    requires Pointers(ps, items) && c == Top(ts, i)
    ensures 0 <= i < |ts| ==> Pointers(ps + [c], items + [ts[i]])
  {
  }

  /** From m to m' nothing outside the list and the item taken has changed. */
  ghost predicate LeavesRest(m: Mem, m': Mem, a: Tree, t: Tree) {
    && (forall n <- m.live | n !in Cells(a) && n !in Cells(t) ::
          n in m'.live && n in m.nodes && n in m'.nodes && m'.nodes[n] == m.nodes[n])
    && (forall s <- m.strings | s !in Texts(a) && s !in Texts(t) :: s in m'.strings)
  }

  lemma StillWaits(m: Mem, m': Mem, a: Tree, b: Tree, t: Tree, u: Tree)
    requires Waits(m, a, u) && LeavesRest(m, m', a, t) && Apart(t, u)
    requires Cells(b) <= Cells(a) + Cells(t) && Texts(b) <= Texts(a) + Texts(t)
    ensures Waits(m', b, u)
  {
    forall n <- Cells(u) ensures n in m'.live && n in m.nodes && n in m'.nodes && m'.nodes[n] == m.nodes[n] {
      assert n in m.live && n !in Cells(a) && n !in Cells(t);
    }
    forall s <- Texts(u) ensures s in m'.strings && s !in Texts(b) {
      assert s in m.strings && s !in Texts(a) && s !in Texts(t);
    }
    assert u.addr in Cells(u);
    FrameTree(m.nodes, m'.nodes, u);
  }

  lemma StillSupplied(m: Mem, m': Mem, a: Tree, b: Tree, t: Tree, items: seq<Tree>)
    requires Supplied(m, a, items) && LeavesRest(m, m', a, t) && forall i | 0 <= i < |items| :: Apart(t, items[i])
    requires Cells(b) <= Cells(a) + Cells(t) && Texts(b) <= Texts(a) + Texts(t)
    ensures Supplied(m', b, items)
  {
    forall i | 0 <= i < |items| ensures Waits(m', b, items[i]) {
      StillWaits(m, m', a, b, t, items[i]);
    }
  }

  lemma TakeItem(m: Mem, a: Tree, items: seq<Tree>, k: nat)
    requires Supplied(m, a, items) && k < |items|
    ensures Waits(m, a, items[k]) && Supplied(m, a, Without(items, k))
    ensures forall i | 0 <= i < |items| - 1 :: Apart(items[k], Without(items, k)[i])
  {
    var rest := Without(items, k);
    forall i | 0 <= i < |rest| ensures Waits(m, a, rest[i]) && Apart(items[k], rest[i]) {
      assert rest[i] == items[if i < k then i else i + 1];
    }
    forall i, j | 0 <= i < |rest| && 0 <= j < |rest| && i != j ensures Apart(rest[i], rest[j]) {
      assert rest[i] == items[if i < k then i else i + 1] && rest[j] == items[if j < k then j else j + 1];
    }
  }

  lemma GiveItem(m: Mem, a: Tree, items: seq<Tree>, t: Tree)
    requires Supplied(m, a, items) && Waits(m, a, t) && forall i | 0 <= i < |items| :: Apart(items[i], t)
    ensures Supplied(m, a, items + [t])
  {
  }

  // ---- what each operation leaves alone ----

  lemma AppendLeaves(m: Mem, m': Mem, a: Tree, t: Tree)
    requires List(m, a) && Mine(m, t) && m.live <= m.nodes.Keys && Nil !in m.live
    requires LinksOnly(m, m', {a.addr, Top(a.kids, |a.kids| - 1), t.addr})
    ensures LeavesRest(m, m', a, t)
  {
    assert a.addr in Cells(a) && t.addr in Cells(t);
    if a.kids != [] {
      OnList(m.nodes, a, |a.kids| - 1);
    }
  }

  lemma DetachLeaves(m: Mem, m': Mem, a: Tree, i: nat)
    requires List(m, a) && m.live <= m.nodes.Keys && i < |a.kids| && LinksOnly(m, m', {a.addr} + Around(a.kids, i))
    ensures LeavesRest(m, m', a, a)
  {
    WritesInside(m, a, i);
  }

  lemma DeleteLeaves(m: Mem, m': Mem, a: Tree, i: nat, inside: set<Ptr>, t: Tree)
    requires List(m, a) && m.live <= m.nodes.Keys && i < |a.kids|
    requires Deletes(m, m', a.addr, inside, a.kids[i]) && inside <= Cells(a) + Cells(t)
    ensures LeavesRest(m, m', a, t)
  {
    InList(a.kids, i);
    assert Cells(a.kids[i]) <= Cells(a) && Texts(a.kids[i]) <= Texts(a);
  }

  // ---- what each operation makes of list and items ----

  /** The nodes of the list and of the items. */
  ghost function Inside(a: Tree, s: State): set<Ptr> { Cells(WithList(a, s.kids)) + CellsAll(s.items) }

  ghost predicate Untouched(m: Mem, m': Mem, inside: set<Ptr>) {
    forall n <- m.live | n !in inside :: n in m'.live && n in m.nodes && n in m'.nodes && m'.nodes[n] == m.nodes[n]
  }

  lemma {:induction false} WithoutCells(ts: seq<Tree>, k: nat)
    requires k < |ts|
    ensures CellsAll(ts) == CellsAll(Without(ts, k)) + Cells(ts[k])
  {
    if k == 0 {
      assert Without(ts, 0) == ts[1..];
    } else {
      WithoutCells(ts[1..], k - 1);
      assert Without(ts, k)[1..] == Without(ts[1..], k - 1);
    }
  }

  /** Changes in the list and in one item are changes inside. */
  lemma LeavesOutside(m: Mem, m': Mem, a: Tree, s: State, k: nat)
    requires k < |s.items| && LeavesRest(m, m', WithList(a, s.kids), s.items[k])
    ensures Untouched(m, m', Inside(a, s))
  {
    WithoutCells(s.items, k);
  }

  lemma AppendHolds(m: Mem, m': Mem, a: Tree, s: State, k: nat)
    requires Represents(m, a, s) && k < |s.items| && Placement(m)
    requires var l, t := WithList(a, s.kids), s.items[k];
             && LinksOnly(m, m', {a.addr, Top(s.kids, |s.kids| - 1), t.addr}) && List(m', WithList(a, s.kids + [t]))
    ensures Represents(m', a, Apply(s, Append(k))) && Untouched(m, m', Inside(a, s))
  {
    var l, t := WithList(a, s.kids), s.items[k];
    TakeItem(m, l, s.items, k);
    assert Nil in m.live ==> Placed(m, Nil);
    AppendLeaves(m, m', l, t);
    LeavesOutside(m, m', a, s, k);
    AppendSets(l, t);
    StillSupplied(m, m', l, WithList(a, s.kids + [t]), t, Without(s.items, k));
  }

  lemma DetachHolds(m: Mem, m': Mem, a: Tree, s: State, which: int)
    requires Represents(m, a, s) && Position(which) < |s.kids|
    requires var i := Position(which);
             var l, b := WithList(a, s.kids), WithList(a, Without(s.kids, i));
             && m.live <= m.nodes.Keys && LinksOnly(m, m', {a.addr} + Around(s.kids, i))
             && List(m', b) && Waits(m', b, s.kids[i])
    ensures Represents(m', a, Apply(s, Detach(which))) && Untouched(m, m', Inside(a, s))
  {
    var i := Position(which);
    var l, b := WithList(a, s.kids), WithList(a, Without(s.kids, i));
    DetachLeaves(m, m', l, i);
    UnlinkSets(m, l, i);
    StillSupplied(m, m', l, b, l, s.items);
    forall j | 0 <= j < |s.items| ensures Apart(s.items[j], s.kids[i]) {
      assert Waits(m, l, s.items[j]);
    }
    GiveItem(m', b, s.items, s.kids[i]);
  }

  lemma DeleteHolds(m: Mem, m': Mem, a: Tree, s: State, which: int)
    requires Represents(m, a, s) && Position(which) < |s.kids|
    requires var l, i := WithList(a, s.kids), Position(which);
             && m.live <= m.nodes.Keys && Deletes(m, m', a.addr, Cells(l), s.kids[i])
             && List(m', WithList(a, Without(s.kids, i)))
    ensures Represents(m', a, Apply(s, Delete(which))) && Untouched(m, m', Inside(a, s))
  {
    var i := Position(which);
    var l := WithList(a, s.kids);
    DeleteLeaves(m, m', l, i, Cells(l), l);
    UnlinkSets(m, l, i);
    StillSupplied(m, m', l, WithList(a, Without(s.kids, i)), l, s.items);
  }

  lemma ReplaceHolds(m: Mem, m': Mem, a: Tree, s: State, which: int, k: nat)
    requires Represents(m, a, s) && Position(which) < |s.kids| && k < |s.items|
    requires var l, t, i := WithList(a, s.kids), s.items[k], Position(which);
             && m.live <= m.nodes.Keys && Deletes(m, m', a.addr, Cells(l) + Cells(t), s.kids[i])
             && List(m', WithList(a, s.kids[i := t]))
    ensures Represents(m', a, Apply(s, Replace(which, k))) && Untouched(m, m', Inside(a, s))
  {
    var l, t, i := WithList(a, s.kids), s.items[k], Position(which);
    DeleteLeaves(m, m', l, i, Cells(l) + Cells(t), t);
    LeavesOutside(m, m', a, s, k);
    TakeItem(m, l, s.items, k);
    SwapSets(m, l, i, t);
    StillSupplied(m, m', l, WithList(a, s.kids[i := t]), t, Without(s.items, k));
  }

  // ---- what is given back, and what is not touched ----

  /** Between two moments the trees `gone` have been deleted, in this order, and nothing else. */
  ghost predicate Frees(m: Mem, freed: seq<Ptr>, m': Mem, freed': seq<Ptr>, gone: seq<Tree>) {
    && freed' == freed + OrderAll(gone)
    && m'.live == m.live - CellsAll(gone) && m'.strings == m.strings - TextsAll(gone)
  }

  lemma FreesNone(m: Mem, m': Mem, freed: seq<Ptr>)
    requires m'.live == m.live && m'.strings == m.strings
    ensures Frees(m, freed, m', freed, [])
  {
  }

  lemma FreesOne(m: Mem, freed: seq<Ptr>, m': Mem, freed': seq<Ptr>, t: Tree)
    requires freed' == freed + Order(t) && m'.live == m.live - Cells(t) && m'.strings == m.strings - Texts(t)
    ensures Frees(m, freed, m', freed', [t])
  {
    OrderSingle(t);
    Single(m.nodes, t);
  }

  lemma OrderSingle(t: Tree)
    ensures OrderAll([t]) == Order(t)
  {
    assert [t][1..] == [];
  }

  lemma {:induction false} OrderConcat(ts: seq<Tree>, us: seq<Tree>)
    ensures OrderAll(ts + us) == OrderAll(ts) + OrderAll(us)
  {
    if ts == [] {
      assert ts + us == us;
    } else {
      assert (ts + us)[1..] == ts[1..] + us;
      OrderConcat(ts[1..], us);
    }
  }

  lemma FreesThen(m: Mem, freed: seq<Ptr>, m': Mem, freed': seq<Ptr>, m'': Mem, freed'': seq<Ptr>,
                  ts: seq<Tree>, us: seq<Tree>)
    requires Frees(m, freed, m', freed', ts) && Frees(m', freed', m'', freed'', us)
    ensures Frees(m, freed, m'', freed'', ts + us)
  {
    OrderConcat(ts, us);
    Concat(m.nodes, ts, us);
    assert freed + OrderAll(ts) + OrderAll(us) == freed + (OrderAll(ts) + OrderAll(us));
  }

  /** The trees a call deletes. */
  function Dead(s: State, c: Call): seq<Tree> {
    if (c.Delete? || c.Replace?) && Position(c.which) < |s.kids| then [s.kids[Position(c.which)]] else []
  }

  lemma DeadGone(s: State, c: Call)
    requires Fits(s, c)
    ensures Apply(s, c).gone == s.gone + Dead(s, c)
  {
  }

  lemma InsideShrinks(m: Mem, a: Tree, s: State, c: Call)
    requires Represents(m, a, s) && Fits(s, c)
    ensures Inside(a, Apply(s, c)) <= Inside(a, s)
  {
    var l := WithList(a, s.kids);
    if c.Append? || c.Replace? {
      WithoutCells(s.items, c.k);
    }
    match c
    case Append(k) => AppendSets(l, s.items[k]);
    case Detach(which) =>
      if Position(which) < |s.kids| {
        UnlinkSets(m, l, Position(which));
        Concat(m.nodes, s.items, [s.kids[Position(which)]]);
        Single(m.nodes, s.kids[Position(which)]);
      }
    case Delete(which) =>
      if Position(which) < |s.kids| {
        UnlinkSets(m, l, Position(which));
      }
    case Replace(which, k) =>
      if Position(which) < |s.kids| {
        TakeItem(m, l, s.items, k);
        SwapSets(m, l, Position(which), s.items[k]);
      }
  }

  // ---- the calls ----

  /** The call has been made: list and items are what it says, its dead have been given back, the list node has
      at most another first child, and nothing outside has changed. */
  ghost predicate Done(m: Mem, freed: seq<Ptr>, m': Mem, freed': seq<Ptr>, a: Tree, s: State, c: Call)
    requires Fits(s, c)
  {
    && Represents(m', a, Apply(s, c)) && Frees(m, freed, m', freed', Dead(s, c))
    && Untouched(m, m', Inside(a, s)) && OnlyChild(m, m', a.addr)
  }

  lemma AppendDone(m: Mem, m': Mem, freed: seq<Ptr>, a: Tree, s: State, k: nat)
    requires Represents(m, a, s) && k < |s.items| && Placement(m) && OnlyChild(m, m', a.addr)
    requires var l, t := WithList(a, s.kids), s.items[k];
             && LinksOnly(m, m', {a.addr, Top(s.kids, |s.kids| - 1), t.addr}) && List(m', WithList(a, s.kids + [t]))
    ensures Done(m, freed, m', freed, a, s, Append(k))
  {
    AppendHolds(m, m', a, s, k);
    FreesNone(m, m', freed);
  }

  lemma DetachDone(m: Mem, m': Mem, freed: seq<Ptr>, a: Tree, s: State, which: int)
    requires Represents(m, a, s) && Position(which) < |s.kids| && m.live <= m.nodes.Keys && OnlyChild(m, m', a.addr)
    requires var i := Position(which);
             var b := WithList(a, Without(s.kids, i));
             && LinksOnly(m, m', {a.addr} + Around(s.kids, i)) && List(m', b) && Waits(m', b, s.kids[i])
    ensures Done(m, freed, m', freed, a, s, Detach(which))
  {
    DetachHolds(m, m', a, s, which);
    FreesNone(m, m', freed);
  }

  lemma DeleteDone(m: Mem, freed: seq<Ptr>, m': Mem, freed': seq<Ptr>, a: Tree, s: State, which: int)
    requires Represents(m, a, s) && Position(which) < |s.kids| && m.live <= m.nodes.Keys
    requires var l, i := WithList(a, s.kids), Position(which);
             && Deletes(m, m', a.addr, Cells(l), s.kids[i]) && List(m', WithList(a, Without(s.kids, i)))
             && freed' == freed + Order(s.kids[i])
    ensures Done(m, freed, m', freed', a, s, Delete(which))
  {
    DeleteHolds(m, m', a, s, which);
    FreesOne(m, freed, m', freed', s.kids[Position(which)]);
  }

  lemma ReplaceDone(m: Mem, freed: seq<Ptr>, m': Mem, freed': seq<Ptr>, a: Tree, s: State, which: int, k: nat)
    requires Represents(m, a, s) && Position(which) < |s.kids| && k < |s.items| && m.live <= m.nodes.Keys
    requires var l, t, i := WithList(a, s.kids), s.items[k], Position(which);
             && Deletes(m, m', a.addr, Cells(l) + Cells(t), s.kids[i]) && List(m', WithList(a, s.kids[i := t]))
             && freed' == freed + Order(s.kids[i])
    ensures Done(m, freed, m', freed', a, s, Replace(which, k))
  {
    ReplaceHolds(m, m', a, s, which, k);
    FreesOne(m, freed, m', freed', s.kids[Position(which)]);
  }

  /** A call that finds no child changes nothing. */
  lemma NothingDone(m: Mem, freed: seq<Ptr>, a: Tree, s: State, c: Call)
    requires Represents(m, a, s) && Fits(s, c) && !c.Append? && Position(c.which) >= |s.kids| && m.live <= m.nodes.Keys
    ensures Done(m, freed, m, freed, a, s, c)
  {
    FreesNone(m, m, freed);
  }

  method Do(h: Heap, list: Ptr, call: Call, ps: seq<Ptr>, ghost a: Tree, ghost s: State) returns (qs: seq<Ptr>)
    requires h.Valid() && list == a.addr && Represents(h.View(), a, s) && Fits(s, call) && Pointers(ps, s.items)
    modifies h`nodes, h`strings, h`pools, h`live, h`used, h`free, h`freed, h`destroyed
    ensures h.Valid() && Pointers(qs, Apply(s, call).items)
    ensures Done(old(h.View()), old(h.freed), h.View(), h.freed, a, s, call)
  {
    match call {
      case Append(k) => qs := DoAppend(h, list, k, ps, a, s);
      case Detach(which) =>
        var c := DoDetach(h, list, which, a, s);
        PointersWith(ps, s.items, c, s.kids, Position(which));
        qs := if c != Nil then ps + [c] else ps;
      case Delete(which) => qs := ps; DoDelete(h, list, which, a, s);
      case Replace(which, k) =>
        qs := Kept(h, list, which, k, ps, a, s);
        DoReplace(h, list, which, ps[k], k, a, s);
    }
  }

  method DoAppend(h: Heap, list: Ptr, k: nat, ps: seq<Ptr>, ghost a: Tree, ghost s: State) returns (qs: seq<Ptr>)
    requires h.Valid() && list == a.addr && Represents(h.View(), a, s) && k < |s.items| && Pointers(ps, s.items)
    modifies h`nodes, h`strings, h`pools, h`live, h`used, h`free, h`freed, h`destroyed
    ensures h.Valid() && Pointers(qs, Without(s.items, k))
    ensures Done(old(h.View()), old(h.freed), h.View(), h.freed, a, s, Append(k))
  {
    assert Waits(h.View(), WithList(a, s.kids), s.items[k]);
    AddItemToArray(h, list, ps[k], WithList(a, s.kids), s.items[k]);
    AppendDone(old(h.View()), h.View(), h.freed, a, s, k);
    qs := Without(ps, k);
    PointersWithout(ps, s.items, k);
  }

  method DoDetach(h: Heap, list: Ptr, which: int, ghost a: Tree, ghost s: State) returns (c: Ptr)
    requires h.Valid() && list == a.addr && Represents(h.View(), a, s)
    modifies h`nodes, h`strings, h`pools, h`live, h`used, h`free, h`freed, h`destroyed
    ensures h.Valid() && Done(old(h.View()), old(h.freed), h.View(), h.freed, a, s, Detach(which))
    ensures c == Top(s.kids, Position(which)) && (c == Nil <==> Position(which) >= |s.kids|)
  {
    c := DetachItemFromArray(h, list, which, WithList(a, s.kids));
    if Position(which) < |s.kids| {
      DetachDone(old(h.View()), h.View(), h.freed, a, s, which);
    } else {
      NothingDone(old(h.View()), h.freed, a, s, Detach(which));
    }
  }

  method DoDelete(h: Heap, list: Ptr, which: int, ghost a: Tree, ghost s: State)
    requires h.Valid() && list == a.addr && Represents(h.View(), a, s)
    modifies h`nodes, h`strings, h`pools, h`live, h`used, h`free, h`freed, h`destroyed
    ensures h.Valid() && Done(old(h.View()), old(h.freed), h.View(), h.freed, a, s, Delete(which))
  {
    DeleteItemFromArray(h, list, which, WithList(a, s.kids));
    if Position(which) < |s.kids| {
      DeleteDone(old(h.View()), old(h.freed), h.View(), h.freed, a, s, which);
    } else {
      NothingDone(old(h.View()), h.freed, a, s, Delete(which));
    }
  }

  /** The caller's pointers after a replacement: the new item is no longer the caller's, unless there
      was no child to replace. */
  method Kept(h: Heap, list: Ptr, which: int, k: nat, ps: seq<Ptr>, ghost a: Tree, ghost s: State)
    returns (qs: seq<Ptr>)
    requires list == a.addr && Represents(h.View(), a, s) && k < |s.items| && Pointers(ps, s.items)
    ensures Pointers(qs, Apply(s, Replace(which, k)).items)
  {
    OwnList(h.View(), WithList(a, s.kids));
    var n := GetArraySize(h, list, s.kids);
    PointersWithout(ps, s.items, k);
    qs := if Position(which) < n then Without(ps, k) else ps;
  }

  method DoReplace(h: Heap, list: Ptr, which: int, item: Ptr, ghost k: nat, ghost a: Tree, ghost s: State)
    requires h.Valid() && list == a.addr && Represents(h.View(), a, s) && k < |s.items| && item == s.items[k].addr
    modifies h`nodes, h`strings, h`pools, h`live, h`used, h`free, h`freed, h`destroyed
    ensures h.Valid() && Done(old(h.View()), old(h.freed), h.View(), h.freed, a, s, Replace(which, k))
  {
    assert Waits(h.View(), WithList(a, s.kids), s.items[k]);
    ReplaceItemInArray(h, list, which, item, WithList(a, s.kids), s.items[k]);
    if Position(which) < |s.kids| {
      ReplaceDone(old(h.View()), old(h.freed), h.View(), h.freed, a, s, which, k);
    } else {
      NothingDone(old(h.View()), h.freed, a, s, Replace(which, k));
    }
  }

  /** Any series of calls: list and items end as the sequences say, exactly the deleted trees are given
      back, the list node has at most another first child, and no node outside the list and the items is
      touched. */
  method Perform(h: Heap, list: Ptr, calls: seq<Call>, ps: seq<Ptr>, ghost a: Tree, ghost items: seq<Tree>)
    returns (qs: seq<Ptr>)
    requires h.Valid() && list == a.addr && Pointers(ps, items)
    requires Represents(h.View(), a, State(a.kids, items, [])) && FitsAll(State(a.kids, items, []), calls)
    modifies h`nodes, h`strings, h`pools, h`live, h`used, h`free, h`freed, h`destroyed
    ensures h.Valid()
    ensures var s := ApplyAll(State(a.kids, items, []), calls);
            && Represents(h.View(), a, s) && Pointers(qs, s.items)
            && Frees(old(h.View()), old(h.freed), h.View(), h.freed, s.gone)
    ensures Untouched(old(h.View()), h.View(), Cells(a) + CellsAll(items)) && OnlyChild(old(h.View()), h.View(), list)
  {
    ghost var s := State(a.kids, items, []);
    var i := 0;
    qs := ps;
    while i < |calls|
      invariant 0 <= i <= |calls| && h.Valid() && Represents(h.View(), a, s) && Pointers(qs, s.items)
      invariant FitsAll(s, calls[i..]) && ApplyAll(s, calls[i..]) == ApplyAll(State(a.kids, items, []), calls)
      invariant Frees(old(h.View()), old(h.freed), h.View(), h.freed, s.gone)
      invariant Inside(a, s) <= Inside(a, State(a.kids, items, []))
      invariant Untouched(old(h.View()), h.View(), Inside(a, State(a.kids, items, [])))
      invariant OnlyChild(old(h.View()), h.View(), list)
    {
      ghost var m, freed := h.View(), h.freed;
      assert calls[i..][0] == calls[i] && calls[i..][1..] == calls[i + 1..];
      InsideShrinks(m, a, s, calls[i]);
      qs := Do(h, list, calls[i], qs, a, s);
      DeadGone(s, calls[i]);
      FreesThen(old(h.View()), old(h.freed), m, freed, h.View(), h.freed, s.gone, Dead(s, calls[i]));
      s, i := Apply(s, calls[i]), i + 1;
    }
  }
}
