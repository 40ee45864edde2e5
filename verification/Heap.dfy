/** The allocation code of cJSON.c over the memory of module Memory. */
module Heaps {
  import opened Memory

  ghost predicate Below(created: set<int>, top: int) { forall p <- created :: p < top }

  /** Every pool that was ever made is either in use or has been destroyed exactly once. */
  ghost predicate Balanced(created: set<int>, alive: set<int>, destroyed: multiset<int>) {
    forall p: int :: Balance(created, alive, destroyed, p)
  }

  ghost predicate Balance(created: set<int>, alive: set<int>, destroyed: multiset<int>, p: int) {
    (p in alive ==> p in created) && destroyed[p] == if p in created && p !in alive then 1 else 0
  }

  lemma BalancedNew(created: set<int>, pools: map<int, Pool>, destroyed: multiset<int>, p: int, pool: Pool)
    requires Balanced(created, pools.Keys, destroyed) && p !in created
    ensures Balanced(created + {p}, pools[p := pool].Keys, destroyed)
  {
    var alive := pools[p := pool].Keys;
    assert alive == pools.Keys + {p};
    forall q: int ensures Balance(created + {p}, alive, destroyed, q) {
      assert Balance(created, pools.Keys, destroyed, q);
    }
  }

  lemma BalancedGone(created: set<int>, alive: set<int>, destroyed: multiset<int>, p: int)
    requires Balanced(created, alive, destroyed) && p in alive
    ensures Balanced(created, alive - {p}, destroyed + multiset{p}) && p !in destroyed
  {
    assert Balance(created, alive, destroyed, p);
    forall q: int ensures Balance(created, alive - {p}, destroyed + multiset{p}, q) {
      assert Balance(created, alive, destroyed, q);
    }
  }

  class Heap {
    var nodes: map<Ptr, Node>
    var strings: map<int, string>
    var pools: map<int, Pool>
    var top: int
    ghost var live: set<Ptr>
    ghost var used: map<int, set<Ptr>>
    ghost var free: map<int, seq<Ptr>>
    /** Every node given back so far, in order; every pool made, and every time a pool was destroyed. */
    ghost var freed: seq<Ptr>
    ghost var created: set<int>
    ghost var destroyed: multiset<int>

    ghost function View(): Mem
      reads this
    {
      Mem(nodes, strings, pools, top, live, used, free)
    }

    ghost predicate Valid()
      reads this
    {
      && live <= nodes.Keys && Consistent(View())
      && Below(created, top) && Balanced(created, pools.Keys, destroyed)
    }

    constructor ()
      ensures Valid() && live == {} && strings == map[] && pools == map[] && freed == [] && created == {}
      ensures destroyed == multiset{}
    {
      nodes, strings, pools, top := map[], map[], map[], 0;
      live, used, free, freed, created, destroyed := {}, map[], map[], [], {}, multiset{};
    }

    /** Writes the new contents of nodes and pools back in one go, with their bookkeeping. */
    method Commit(nodes': map<Ptr, Node>, pools': map<int, Pool>, ghost m: Mem)
      requires m.nodes == nodes' && m.pools == pools' && m.strings == strings && m.top == top
      requires pools'.Keys == pools.Keys
      modifies this`nodes, this`pools, this`live, this`used, this`free
      ensures View() == m && pools.Keys == old(pools.Keys)
    {
      nodes, pools := nodes', pools';
      live, used, free := m.live, m.used, m.free;
    }

    /** A store to a node in use; the pool a node belongs to never changes. */
    method Store(n: Ptr, node: Node)
      requires Valid() && n in live && node.pool == nodes[n].pool
      modifies this`nodes
      ensures Valid() && nodes == old(nodes)[n := node]
    {
      StoreConsistent(View(), n, node);
      nodes := nodes[n := node];
    }

    /** A string from malloc (parse_string, cJSON_strdup), and its return. */
    method NewString(s: string) returns (p: int)
      requires Valid()
      modifies this`strings, this`top
      ensures Valid() && p == old(top) && p !in old(strings) && strings == old(strings)[p := s]
    {
      NewStringConsistent(View(), s);
      p, top := top, top + 1;
      strings := strings[p := s];
    }

    method FreeString(p: int)
      requires Valid() && p in strings
      modifies this`strings
      ensures Valid() && strings == old(strings) - {p}
    {
      FreeStringConsistent(View(), p);
      strings := strings - {p};
    }

    /** cJSON_New_Pool */
    method NewPool() returns (p: int)
      requires Valid()
      modifies this`pools, this`top, this`used, this`free, this`created
      ensures Valid() && p !in old(pools) && pools == old(pools)[p := Pool(0, 0, Nil)]
      ensures p !in old(created) && created == old(created) + {p}
    {
      NewPoolConsistent(View());
      BalancedNew(created, pools, destroyed, top, Pool(0, 0, Nil));
      p, top, created := top, top + 1, created + {top};
      pools, used, free := pools[p := Pool(0, 0, Nil)], used[p := {}], free[p := []];
      assert View() == NewPoolState(old(View()));
    }

    /** cJSON_New_PoolBlock: a zeroed block, whose items the loop pushes on the free list one by one. */
    method NewPoolBlock(p: int)
      requires Valid() && p in pools
      modifies this`nodes, this`pools, this`live, this`used, this`free
      ensures live == old(live)
      ensures Valid() && pools.Keys == old(pools.Keys)
      ensures pools[p].freeItems != Nil && pools[p].blocks == old(pools[p].blocks) + 1
      ensures pools[p].refcount == old(pools[p].refcount)
      ensures forall q <- pools | q != p :: pools[q] == old(pools[q])
      ensures forall k <- live :: k in nodes && nodes[k] == old(nodes[k])
    {
      ghost var m := View();
      var pool := pools[p];
      var linked := BuildBlock(m, nodes, p, pool);
      Commit(linked, pools[p := Pool(pool.blocks + 1, pool.refcount, Slot(p, pool.blocks, POOL_ALLOC_SIZE))],
             BlockState(m, p, linked));
    }

    /** cJSON_Pool_New_Item: the first free item, zeroed except for its pool. */
    method PoolNewItem(p: int) returns (n: Ptr)
      requires Valid() && p in pools
      modifies this`nodes, this`pools, this`live, this`used, this`free
      ensures Valid() && n != Nil && InPool(n, p) && n !in old(live) && live == old(live) + {n}
      ensures nodes[n] == ZERO.(pool := Ref(p))
      ensures forall k <- old(live) :: nodes[k] == old(nodes[k])
      ensures pools.Keys == old(pools.Keys) && pools[p].refcount == old(pools[p].refcount) + 1
      ensures forall q <- pools | q != p :: pools[q] == old(pools[q])
      ensures pools[p].blocks == old(pools[p].blocks) + if old(pools[p].freeItems) == Nil then 1 else 0
    {
      if pools[p].freeItems == Nil {
        NewPoolBlock(p);
      }
      n := TakeItem(p);
    }

    method TakeItem(p: int) returns (n: Ptr)
      requires Valid() && p in pools && pools[p].freeItems != Nil
      modifies this`nodes, this`pools, this`live, this`used, this`free
      ensures Valid() && pools.Keys == old(pools.Keys) && Takes(old(View()), View(), p, n)
    {
      ghost var m := View();
      TakeEffect(m, p);
      n := pools[p].freeItems;
      var node, pool := nodes[n], pools[p];
      Commit(nodes[n := node.(next := Nil, pool := Ref(p))],
             pools[p := Pool(pool.blocks, pool.refcount + 1, node.next)], TakeState(m, p));
    }

    /** cJSON_Pool_Free_Item: the last item in use takes the whole pool with it. */
    method PoolFreeItem(p: int, n: Ptr)
      requires Valid() && n in live && InPool(n, p)
      modifies this`nodes, this`pools, this`live, this`used, this`free, this`freed, this`destroyed
      ensures Valid() && live == old(live) - {n} && freed == old(freed) + [n]
      ensures forall k <- live :: nodes[k] == old(nodes[k])
      ensures p in old(pools) && Released(old(pools), {n}, pools, live)
      ensures destroyed == old(destroyed) + if p in pools then multiset{} else multiset{p}
    {
      LastOfPool(View(), p, n);
      var refcount := pools[p].refcount - 1;
      if refcount == 0 {
        DestroyPool(p, n);
      } else {
        GiveItem(p, n, refcount);
      }
      freed := freed + [n];
    }

    /** Any other item: zeroed, and pushed on the free list. */
    method GiveItem(p: int, n: Ptr, refcount: int)
      requires Valid() && PoolOk(View(), p) && n in used[p] && HasMember(live - {n}, p)
      requires refcount == pools[p].refcount - 1
      modifies this`nodes, this`pools, this`live, this`used, this`free
      ensures Valid() && live == old(live) - {n} && Released(old(pools), {n}, pools, live)
      ensures forall k <- live :: nodes[k] == old(nodes[k])
      ensures p in pools
    {
      ghost var m := View();
      GiveEffect(m, p, n);
      Commit(nodes[n := ZERO.(next := pools[p].freeItems)],
             pools[p := Pool(pools[p].blocks, refcount, n)], GiveState(m, p, n));
    }

    /** cJSON_New_Item: from the parent's pool, or from malloc when there is none. */
    method NewItem(parent: Ptr) returns (n: Ptr)
      requires Valid() && (parent == Nil || parent in live)
      modifies this`nodes, this`pools, this`top, this`live, this`used, this`free
      ensures Valid() && n != Nil && n !in old(live) && live == old(live) + {n}
      ensures nodes[n] == ZERO.(pool := if parent == Nil then NoRef else old(nodes[parent].pool))
      ensures forall k <- old(live) :: nodes[k] == old(nodes[k])
      ensures SamePool(n, parent) && pools.Keys == old(pools.Keys)
      ensures forall p <- pools | !InPool(parent, p) :: pools[p] == old(pools[p])
    {
      if parent != Nil {
        PlacedInPool(View(), parent);
      }
      if parent != Nil && nodes[parent].pool != NoRef {
        n := PoolNewItem(nodes[parent].pool.id);
      } else {
        MallocConsistent(View());
        n := Own(top);
        top := top + 1;
        nodes, live := nodes[n := ZERO], live + {n};
      }
    }

    /** cJSON_Free_Item */
    method FreeItem(n: Ptr)
      requires Valid() && n in live
      modifies this`nodes, this`pools, this`live, this`used, this`free, this`freed, this`destroyed
      ensures Valid() && live == old(live) - {n} && freed == old(freed) + [n]
      ensures forall k <- live :: nodes[k] == old(nodes[k])
      ensures Released(old(pools), {n}, pools, live)
    {
      PlacedInPool(View(), n);
      if nodes[n].pool != NoRef {
        PoolFreeItem(nodes[n].pool.id, n);
      } else {
        FreeConsistent(View(), n);
        freed := freed + [n];
        nodes, live := nodes - {n}, live - {n};
      }
    }

    /** cJSON_Destroy_Pool, with n as the last live item: every block of the pool is freed, then the pool
        itself, which was not destroyed before. No other node is touched. */
    method DestroyPool(p: int, ghost n: Ptr)
      requires Valid() && n in live && InPool(n, p) && p in pools && forall k <- live | InPool(k, p) :: k == n
      modifies this`nodes, this`pools, this`live, this`used, this`free, this`destroyed
      ensures Valid() && live == old(live) - {n} && pools == old(pools) - {p} && Released(old(pools), {n}, pools, live)
      ensures p !in old(destroyed) && destroyed == old(destroyed) + multiset{p}
      ensures (forall k <- nodes :: !InPool(k, p))
      ensures forall k <- old(nodes) | !InPool(k, p) :: k in nodes && nodes[k] == old(nodes[k])
    {
      DestroyEffect(View(), p, n);
      BalancedGone(created, pools.Keys, destroyed, p);
      assert (pools - {p}).Keys == pools.Keys - {p};
      DestroyedSlots(View(), p);
      FreeBlocks(p);
      destroyed := destroyed + multiset{p};
    }

    /** All blocks of the pool, and the pool. */
    method FreeBlocks(p: int)
      requires p in pools
      modifies this`nodes, this`pools, this`live, this`used, this`free
      ensures View() == DestroyState(old(View()), p)
    {
      ghost var slots := set n | n in nodes && InPool(n, p);
      nodes := map n | n in nodes && !InPool(n, p) :: nodes[n];
      assert nodes == old(nodes) - slots;
      pools := pools - {p};
      live, used, free := live - slots, used - {p}, free - {p};
    }
  }

  lemma DestroyedSlots(m: Mem, p: int)
    requires p in m.pools
    ensures var m' := DestroyState(m, p);
            && m'.pools == m.pools - {p} && (forall k <- m'.nodes :: !InPool(k, p))
            && forall k <- m.nodes | !InPool(k, p) :: k in m'.nodes && m'.nodes[k] == m.nodes[k]
  {
  }

  ghost predicate HasMember(live: set<Ptr>, p: int) { exists k :: k in live && InPool(k, p) }

  /** What becomes of the pools when these cells are given back: a pool that held one of them is still
      there exactly if some live node is left in it; every other pool is untouched. */
  ghost predicate PoolReleased(pools: map<int, Pool>, cells: set<Ptr>, pools': map<int, Pool>, live': set<Ptr>, q: int)
    requires q in pools
  {
    if HasMember(cells, q) then q in pools' <==> HasMember(live', q) else q in pools' && pools'[q] == pools[q]
  }

  ghost predicate Released(pools: map<int, Pool>, cells: set<Ptr>, pools': map<int, Pool>, live': set<Ptr>) {
    pools'.Keys <= pools.Keys && forall q <- pools :: PoolReleased(pools, cells, pools', live', q)
  }

  lemma ReleasedTwice(pools: map<int, Pool>, a: set<Ptr>, pools1: map<int, Pool>, live1: set<Ptr>,
                      b: set<Ptr>, pools2: map<int, Pool>, live2: set<Ptr>)
    requires Released(pools, a, pools1, live1) && Released(pools1, b, pools2, live2)
    requires b <= live1 && live2 == live1 - b && forall n <- live1 | n.Slot? :: n.pool in pools1
    ensures Released(pools, a + b, pools2, live2)
  {
    forall q <- pools ensures PoolReleased(pools, a + b, pools2, live2, q) {
      assert PoolReleased(pools, a, pools1, live1, q);
      if n :| n in b && InPool(n, q) {
        assert n in a + b && PoolReleased(pools1, b, pools2, live2, q);
      } else if n :| n in a && InPool(n, q) {
        assert n in a + b;
        assert HasMember(live1, q) <==> HasMember(live2, q) by {
          if k :| k in live1 && InPool(k, q) { assert k in live2; }
        }
        assert q in pools1 ==> PoolReleased(pools1, b, pools2, live2, q);
      } else {
        assert !HasMember(a + b, q);
        assert PoolReleased(pools1, b, pools2, live2, q);
      }
    }
  }

  lemma LiveInPools(m: Mem)
    requires Consistent(m)
    ensures forall n <- m.live | n.Slot? :: n.pool in m.pools
  {
    forall n <- m.live | n.Slot? ensures n.pool in m.pools {
      PlacedInPool(m, n);
    }
  }

  /** Children live in the pool of their parent, if it has one. */
  predicate SamePool(n: Ptr, parent: Ptr) {
    if parent.Slot? then InPool(n, parent.pool) else n.Own?
  }

  lemma PlacedInPool(m: Mem, n: Ptr)
    requires Consistent(m) && n in m.live
    ensures n != Nil && n in m.nodes
    ensures if n.Slot? then m.nodes[n].pool == Ref(n.pool) && n.pool in m.pools else m.nodes[n].pool == NoRef
  {
    assert Placed(m, n);
  }

  /** A block from malloc and memset, with its items linked in front of the free list. */
  method BuildBlock(ghost m: Mem, nodes: map<Ptr, Node>, p: int, pool: Pool) returns (linked: map<Ptr, Node>)
    requires Consistent(m) && m.nodes == nodes && p in m.pools && m.pools[p] == pool
    ensures PoolOk(m, p) && Consistent(BlockState(m, p, linked)) && m.live <= linked.Keys
    ensures forall k <- m.live :: linked[k] == nodes[k]
  {
    NewBlockIsNew(m, p);
    var zeroed := nodes + map i | 1 <= i <= POOL_ALLOC_SIZE :: Slot(p, pool.blocks, i) := ZERO;
    KeepChain(nodes, zeroed, pool.freeItems, m.free[p]);
    var head;
    linked, head := LinkItems(zeroed, p, pool.blocks, pool.freeItems, m.free[p]);
    BlockEffect(m, p, zeroed, linked);
  }

  /** The loop of cJSON_New_PoolBlock. */
  method LinkItems(zeroed: map<Ptr, Node>, p: int, b: int, first: Ptr, ghost list: seq<Ptr>)
    returns (nodes: map<Ptr, Node>, head: Ptr)
    requires FreeChain(zeroed, first, list) && (forall n <- list :: !(InPool(n, p) && n.block == b))
    requires forall i | 1 <= i <= POOL_ALLOC_SIZE :: Slot(p, b, i) in zeroed && zeroed[Slot(p, b, i)] == ZERO
    ensures FreeChain(nodes, head, Descending(p, b, POOL_ALLOC_SIZE) + list) && head == Slot(p, b, POOL_ALLOC_SIZE)
    ensures nodes.Keys == zeroed.Keys
    ensures forall n <- nodes :: nodes[n] == zeroed[n] || (InPool(n, p) && n.block == b)
  {
    nodes, head := zeroed, first;
    ghost var chain := list;
    for i := 1 to POOL_ALLOC_SIZE + 1
      invariant chain == Descending(p, b, i - 1) + list && FreeChain(nodes, head, chain)
      invariant i > 1 ==> head == Slot(p, b, i - 1)
      invariant nodes.Keys == zeroed.Keys
      invariant forall n <- nodes :: nodes[n] == zeroed[n] || (InPool(n, p) && n.block == b && n.item < i)
    {
      var item := Slot(p, b, i);
      PushFree(nodes, head, chain, item);
      nodes := nodes[item := nodes[item].(next := head)];
      head, chain := item, [item] + chain;
      assert chain == Descending(p, b, i) + list;
    }
  }

  lemma KeepChain(nodes: map<Ptr, Node>, nodes': map<Ptr, Node>, head: Ptr, list: seq<Ptr>)
    requires FreeChain(nodes, head, list)
    requires forall n <- nodes :: n in nodes' && nodes'[n] == nodes[n]
    ensures FreeChain(nodes', head, list)
  {
    forall i | 0 <= i < |list| ensures FreeNode(nodes', list, i) {
      assert FreeNode(nodes, list, i);
    }
  }

  lemma NewBlockIsNew(m: Mem, p: int)
    requires Consistent(m) && p in m.pools
    ensures forall n <- m.nodes :: !(InPool(n, p) && n.block == m.pools[p].blocks)
    ensures PoolOk(m, p) && forall n <- m.free[p] :: n in m.nodes
  {
    assert PoolOk(m, p);
    forall n <- m.nodes ensures !(InPool(n, p) && n.block == m.pools[p].blocks) {
      if n.Slot? {
        SlotInBlock(m, n);
      }
    }
    forall n <- m.free[p] ensures n in m.nodes {
      FreeIsNotLive(m, p, n);
    }
  }

  lemma BlockEffect(m: Mem, p: int, zeroed: map<Ptr, Node>, linked: map<Ptr, Node>)
    requires Consistent(m) && PoolOk(m, p)
    requires var b := m.pools[p].blocks; zeroed == m.nodes + map i | 1 <= i <= POOL_ALLOC_SIZE :: Slot(p, b, i) := ZERO
    requires linked.Keys == zeroed.Keys
    requires forall n <- linked :: linked[n] == zeroed[n] || (InPool(n, p) && n.block == m.pools[p].blocks)
    requires FreeChain(linked, Slot(p, m.pools[p].blocks, POOL_ALLOC_SIZE),
                       Descending(p, m.pools[p].blocks, POOL_ALLOC_SIZE) + m.free[p])
    ensures var m' := BlockState(m, p, linked); Consistent(m') && m'.live <= m'.nodes.Keys
    ensures forall k <- m.live :: k in linked && linked[k] == m.nodes[k]
  {
    var b := m.pools[p].blocks;
    var items := Descending(p, b, POOL_ALLOC_SIZE);
    NewBlockIsNew(m, p);
    forall n <- linked ensures n in m.nodes || n in items {
      if n !in m.nodes {
        assert items[POOL_ALLOC_SIZE - n.item] == n;
      }
    }
    BlockConsistent(m, p, linked);
  }

  /** n is a new node of pool p, zeroed; the pool counts one more, and nothing else has changed. */
  ghost predicate Takes(m: Mem, m': Mem, p: int, n: Ptr) {
    && n != Nil && InPool(n, p) && n !in m.live && m'.live == m.live + {n}
    && n in m'.nodes && m'.nodes[n] == ZERO.(pool := Ref(p))
    && (forall k <- m.live :: k in m.nodes && k in m'.nodes && m'.nodes[k] == m.nodes[k])
    && p in m.pools && p in m'.pools && m'.pools[p].refcount == m.pools[p].refcount + 1
    && m'.pools[p].blocks == m.pools[p].blocks
    && forall q <- m.pools | q != p :: q in m'.pools && m'.pools[q] == m.pools[q]
  }

  lemma TakeEffect(m: Mem, p: int)
    requires Consistent(m) && p in m.pools && m.pools[p].freeItems != Nil && m.live <= m.nodes.Keys
    ensures PoolOk(m, p) && m.free[p] != [] && m.pools[p].freeItems == m.free[p][0]
    ensures var n, m' := m.free[p][0], TakeState(m, p);
            && n in m.nodes && Consistent(m') && m'.live <= m'.nodes.Keys && m'.pools.Keys == m.pools.Keys
            && m'.nodes == m.nodes[n := m.nodes[n].(next := Nil, pool := Ref(p))] && m'.strings == m.strings
            && m'.top == m.top
            && m'.pools == m.pools[p := Pool(m.pools[p].blocks, m.pools[p].refcount + 1, m.nodes[n].next)]
            && Takes(m, m', p, n)
  {
    assert PoolOk(m, p);
    assert FreeNode(m.nodes, m.free[p], 0);
    TakeConsistent(m, p);
  }

  lemma GiveEffect(m: Mem, p: int, n: Ptr)
    requires Consistent(m) && PoolOk(m, p) && n in m.used[p] && HasMember(m.live - {n}, p)
    ensures var m' := GiveState(m, p, n);
            && Consistent(m') && m'.live == m.live - {n} && Released(m.pools, {n}, m'.pools, m'.live)
            && m'.live <= m'.nodes.Keys && forall k <- m'.live :: m'.nodes[k] == m.nodes[k]
  {
    GiveConsistent(m, p, n);
    LiveInPools(m);
    var m' := GiveState(m, p, n);
    forall q <- m.pools ensures PoolReleased(m.pools, {n}, m'.pools, m'.live, q) {
      assert InPool(n, p) && n in {n};
    }
  }

  lemma DestroyEffect(m: Mem, p: int, n: Ptr)
    requires Consistent(m) && n in m.live && InPool(n, p) && forall k <- m.live | InPool(k, p) :: k == n
    ensures var m' := DestroyState(m, p);
            && Consistent(m') && m'.live == m.live - {n} && Released(m.pools, {n}, m'.pools, m'.live)
            && m'.live <= m'.nodes.Keys && forall k <- m'.live :: m'.nodes[k] == m.nodes[k]
  {
    DestroyConsistent(m, p);
    var m' := DestroyState(m, p);
    forall q <- m.pools ensures PoolReleased(m.pools, {n}, m'.pools, m'.live, q) {
      assert InPool(n, p) && n in {n};
    }
  }

  /** The reference count falls to zero exactly when the last live item of the pool is given back. */
  lemma LastOfPool(m: Mem, p: int, n: Ptr)
    requires Consistent(m) && n in m.live && InPool(n, p)
    ensures PoolOk(m, p) && n in m.used[p]
    ensures m.pools[p].refcount == 1 <==> forall k <- m.live | InPool(k, p) :: k == n
    ensures m.pools[p].refcount != 1 ==> HasMember(m.live - {n}, p)
  {
    assert Placed(m, n) && PoolOk(m, p);
    assert |m.used[p] - {n}| == m.pools[p].refcount - 1;
    assert forall k <- m.live | InPool(k, p) :: Placed(m, k);
    if k :| k in m.used[p] - {n} {
      assert k in m.live - {n} && InPool(k, p) && k != n;
    } else {
      assert m.used[p] - {n} == {};
    }
  }

  /** One turn of the loop: the item is linked in front of the free list. */
  lemma PushFree(nodes: map<Ptr, Node>, head: Ptr, list: seq<Ptr>, item: Ptr)
    requires FreeChain(nodes, head, list) && item !in list && item in nodes && nodes[item] == ZERO
    ensures FreeChain(nodes[item := ZERO.(next := head)], item, [item] + list)
  {
    var nodes', list' := nodes[item := ZERO.(next := head)], [item] + list;
    forall i | 0 <= i < |list'| ensures FreeNode(nodes', list', i) {
      if i > 0 {
        assert FreeNode(nodes, list, i - 1);
        assert list'[i] == list[i - 1] && At(list', i + 1) == At(list, i);
      }
    }
  }
}
