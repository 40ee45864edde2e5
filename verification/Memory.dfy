/** The memory cJSON works in: nodes, strings and allocation pools.
    This module holds the states and the consistency they keep; `Heap` holds the code. */
module Memory {
  import opened Sequences

  /** A node pointer: null, from malloc, or item number `item` (from 1 on) of a block of a pool. */
  datatype Ptr = Nil | Own(id: int) | Slot(pool: int, block: int, item: int)

  /** A pointer to a pool or to a string. */
  datatype Ref = NoRef | Ref(id: int)

  /** CJSON_POOL_ALLOC_SIZE */
  const POOL_ALLOC_SIZE := 1024

  datatype Kind = False | True | Null | Number | String | Array | Object

  /** struct cJSON; `reference` is the cJSON_IsReference bit of `type`. */
  datatype Node = Node(next: Ptr, prev: Ptr, child: Ptr, kind: Kind, reference: bool,
                       valuestring: Ref, valuedouble: real, name: Ref, pool: Ref)

  /** A node after memset(node, 0, sizeof(cJSON)). */
  const ZERO := Node(Nil, Nil, Nil, False, false, NoRef, 0.0, NoRef, NoRef)

  /** struct cJSON_Pool; the block list is kept as its length, the free list runs through the nodes. */
  datatype Pool = Pool(blocks: int, refcount: int, freeItems: Ptr)

  /** A snapshot of the memory. Numbers from `top` on have never been given to a node, a string or a
      pool. The last three fields are bookkeeping: the nodes handed out and not given back, those of
      each pool, and each pool's free list as a sequence. */
  datatype Mem = Mem(nodes: map<Ptr, Node>, strings: map<int, string>, pools: map<int, Pool>, top: int,
                     live: set<Ptr>, used: map<int, set<Ptr>>, free: map<int, seq<Ptr>>)

  /** Reading a linked list past its end gives the null pointer. */
  function At(s: seq<Ptr>, i: int): Ptr { if 0 <= i < |s| then s[i] else Nil }

  predicate InPool(n: Ptr, p: int) { n.Slot? && n.pool == p }

  /** A free slot: zeroed but for its link. */
  ghost predicate FreeNode(nodes: map<Ptr, Node>, free: seq<Ptr>, i: int)
    requires 0 <= i < |free|
  {
    free[i] in nodes && nodes[free[i]] == ZERO.(next := At(free, i + 1))
  }

  /** The free list is the sequence `free`. */
  ghost predicate FreeChain(nodes: map<Ptr, Node>, head: Ptr, free: seq<Ptr>) {
    && head == At(free, 0)
    && NoDuplicates(free)
    && forall i | 0 <= i < |free| :: FreeNode(nodes, free, i)
  }

  /** Of a pool: no slot is both free and in use, the reference count is the number in use, and the
      two together fill all blocks. */
  ghost predicate PoolInv(nodes: map<Ptr, Node>, p: int, pool: Pool, free: seq<Ptr>, used: set<Ptr>) {
    && FreeChain(nodes, pool.freeItems, free)
    && (forall n <- free :: InPool(n, p) && n.block < pool.blocks && n !in used)
    && (forall n <- used :: InPool(n, p) && n.block < pool.blocks)
    && pool.refcount == |used|
    && |free| + |used| == POOL_ALLOC_SIZE * pool.blocks
  }

  ghost predicate PoolOk(m: Mem, p: int) {
    && p in m.pools && p in m.free && p in m.used
    && m.used[p] <= m.live && PoolInv(m.nodes, p, m.pools[p], m.free[p], m.used[p])
  }

  ghost predicate PoolsOk(m: Mem) {
    && m.used.Keys == m.free.Keys == m.pools.Keys
    && forall p <- m.pools :: PoolOk(m, p)
  }

  /** Where a live node comes from. */
  ghost predicate Placed(m: Mem, n: Ptr) {
    && n in m.nodes
    && match n
       case Nil => false
       case Own(_) => m.nodes[n].pool == NoRef
       case Slot(p, _, _) => m.nodes[n].pool == Ref(p) && p in m.used && n in m.used[p]
  }

  /** Every node is in use, or a free slot of its pool. */
  ghost predicate Accounted(m: Mem, n: Ptr) {
    n in m.live || (n.Slot? && n.pool in m.free && n in m.free[n.pool])
  }

  ghost predicate Placement(m: Mem) {
    && m.live <= m.nodes.Keys
    && (forall n <- m.live :: Placed(m, n))
    && (forall n <- m.nodes :: Accounted(m, n))
  }

  ghost predicate Bounds(m: Mem) {
    && (forall n <- m.nodes :: n.Own? ==> n.id < m.top)
    && (forall s <- m.strings :: s < m.top)
    && (forall p <- m.pools :: p < m.top)
  }

  ghost predicate Consistent(m: Mem) { Bounds(m) && Placement(m) && PoolsOk(m) }

  lemma FreeIsNotLive(m: Mem, p: int, n: Ptr)
    requires Placement(m) && PoolOk(m, p) && n in m.free[p]
    ensures InPool(n, p) && n !in m.live && n in m.nodes
  {
    var i :| 0 <= i < |m.free[p]| && m.free[p][i] == n;
    assert FreeNode(m.nodes, m.free[p], i);
    assert n in m.live ==> Placed(m, n);
  }

  /** A slot in memory lies in one of the blocks of its pool. */
  lemma SlotInBlock(m: Mem, n: Ptr)
    requires Consistent(m) && n in m.nodes && n.Slot?
    ensures n.pool in m.pools && n.block < m.pools[n.pool].blocks
  {
    assert Accounted(m, n);
    assert n in m.live ==> Placed(m, n);
    assert PoolOk(m, n.pool);
  }

  /** A step that works on pool p only leaves every other pool as it was. */
  lemma OtherPools(m: Mem, m': Mem, p: int)
    requires Placement(m) && PoolsOk(m)
    requires m'.used.Keys == m'.free.Keys == m'.pools.Keys
    requires forall q <- m'.pools | q != p ::
               q in m.pools && m'.pools[q] == m.pools[q] && m'.free[q] == m.free[q] && m'.used[q] == m.used[q]
    requires forall n <- m.nodes | n !in m.live && !InPool(n, p) && n.pool in m'.pools ::
               n in m'.nodes && m'.nodes[n] == m.nodes[n]
    requires forall n <- m.live | n.Slot? && n.pool != p && n.pool in m'.pools :: n in m'.live
    requires p in m'.pools ==> PoolOk(m', p)
    ensures PoolsOk(m')
  {
    forall q <- m'.pools | q != p ensures PoolOk(m', q) {
      assert PoolOk(m, q);
      forall i | 0 <= i < |m.free[q]| ensures FreeNode(m'.nodes, m.free[q], i) {
        assert FreeNode(m.nodes, m.free[q], i);
        FreeIsNotLive(m, q, m.free[q][i]);
      }
    }
  }

  // ---- each step keeps the memory consistent ----

  lemma StoreConsistent(m: Mem, n: Ptr, node: Node)
    requires Consistent(m) && n in m.live && node.pool == m.nodes[n].pool
    ensures Consistent(m.(nodes := m.nodes[n := node]))
  {
    var m' := m.(nodes := m.nodes[n := node]);
    forall k <- m'.live ensures Placed(m', k) { assert Placed(m, k); }
    forall k <- m'.nodes ensures Accounted(m', k) { assert Accounted(m, k); }
    OtherPools(m, m', m.top);
  }

  lemma NewStringConsistent(m: Mem, s: string)
    requires Consistent(m)
    ensures Consistent(m.(strings := m.strings[m.top := s], top := m.top + 1)) && m.top !in m.strings
  {
    var m' := m.(strings := m.strings[m.top := s], top := m.top + 1);
    forall k <- m'.live ensures Placed(m', k) { assert Placed(m, k); }
    forall k <- m'.nodes ensures Accounted(m', k) { assert Accounted(m, k); }
    OtherPools(m, m', m.top);
  }

  lemma FreeStringConsistent(m: Mem, s: int)
    requires Consistent(m)
    ensures Consistent(m.(strings := m.strings - {s}))
  {
    var m' := m.(strings := m.strings - {s});
    forall k <- m'.live ensures Placed(m', k) { assert Placed(m, k); }
    forall k <- m'.nodes ensures Accounted(m', k) { assert Accounted(m, k); }
    OtherPools(m, m', m.top);
  }

  /** cJSON_New_Pool: an empty pool. */
  ghost function NewPoolState(m: Mem): Mem {
    m.(pools := m.pools[m.top := Pool(0, 0, Nil)], used := m.used[m.top := {}], free := m.free[m.top := []],
       top := m.top + 1)
  }

  lemma NewPoolConsistent(m: Mem)
    requires Consistent(m)
    ensures m.top !in m.pools && Consistent(NewPoolState(m))
  {
    var m' := NewPoolState(m);
    forall k <- m'.live ensures Placed(m', k) { assert Placed(m, k); }
    forall k <- m'.nodes ensures Accounted(m', k) { assert Accounted(m, k); }
    OtherPools(m, m', m.top);
  }

  /** cJSON_Pool_New_Item: the head of the free list becomes live. */
  ghost function TakeState(m: Mem, p: int): Mem
    requires PoolOk(m, p) && m.free[p] != []
  {
    var n, pool := m.free[p][0], m.pools[p];
    m.(nodes := m.nodes[n := ZERO.(pool := Ref(p))], live := m.live + {n}, used := m.used[p := m.used[p] + {n}],
       pools := m.pools[p := Pool(pool.blocks, pool.refcount + 1, At(m.free[p], 1))],
       free := m.free[p := m.free[p][1..]])
  }

  lemma TakePool(m: Mem, p: int)
    requires PoolOk(m, p) && m.free[p] != []
    ensures PoolOk(TakeState(m, p), p)
  {
    var m', n, free := TakeState(m, p), m.free[p][0], m.free[p];
    forall i | 0 <= i < |free| - 1 ensures FreeNode(m'.nodes, free[1..], i) {
      assert FreeNode(m.nodes, free, i + 1);
      assert free[1..][i] == free[i + 1] && At(free[1..], i + 1) == At(free, i + 2);
    }
    assert forall k <- free[1..] :: k in free;
    assert m'.used[p] - {n} == m.used[p];
  }

  lemma TakePlacement(m: Mem, p: int)
    requires Consistent(m) && PoolOk(m, p) && m.free[p] != []
    ensures Placement(TakeState(m, p)) && m.free[p][0] !in m.live && InPool(m.free[p][0], p) && m.free[p][0] in m.nodes
  {
    var m', n := TakeState(m, p), m.free[p][0];
    FreeIsNotLive(m, p, n);
    forall k <- m'.live ensures Placed(m', k) { assert k != n ==> Placed(m, k); }
    forall k <- m'.nodes ensures Accounted(m', k) {
      assert k != n ==> Accounted(m, k);
      assert k != n && k in m.free[p] ==> k in m.free[p][1..];
    }
  }

  lemma TakeConsistent(m: Mem, p: int)
    requires Consistent(m) && PoolOk(m, p) && m.free[p] != []
    ensures Consistent(TakeState(m, p)) && m.free[p][0] !in m.live && InPool(m.free[p][0], p)
  {
    TakePlacement(m, p);
    TakePool(m, p);
    OtherPools(m, TakeState(m, p), p);
  }

  /** cJSON_Pool_Free_Item while other nodes of the pool are in use: zeroed, and pushed on the free list. */
  ghost function GiveState(m: Mem, p: int, n: Ptr): Mem
    requires PoolOk(m, p)
  {
    var pool := m.pools[p];
    m.(nodes := m.nodes[n := ZERO.(next := pool.freeItems)], live := m.live - {n}, used := m.used[p := m.used[p] - {n}],
       pools := m.pools[p := Pool(pool.blocks, pool.refcount - 1, n)],
       free := m.free[p := [n] + m.free[p]])
  }

  lemma GivePool(m: Mem, p: int, n: Ptr)
    requires PoolOk(m, p) && n in m.used[p]
    ensures PoolOk(GiveState(m, p, n), p)
  {
    var m', free, free' := GiveState(m, p, n), m.free[p], [n] + m.free[p];
    forall i | 0 <= i < |free'| ensures FreeNode(m'.nodes, free', i) {
      if i > 0 {
        assert FreeNode(m.nodes, free, i - 1);
        assert free'[i] == free[i - 1] && At(free', i + 1) == At(free, i);
      }
    }
    assert forall k <- free' :: k == n || k in free;
  }

  lemma GiveConsistent(m: Mem, p: int, n: Ptr)
    requires Consistent(m) && PoolOk(m, p) && n in m.used[p]
    ensures Consistent(GiveState(m, p, n))
  {
    var m' := GiveState(m, p, n);
    GivePool(m, p, n);
    forall k <- m'.live ensures Placed(m', k) { assert Placed(m, k); }
    forall k <- m'.nodes ensures Accounted(m', k) {
      assert Accounted(m, k) || k == n;
      assert k in m.free[p] ==> k in [n] + m.free[p];
    }
    OtherPools(m, m', p);
  }

  /** cJSON_Destroy_Pool: every block goes, and with it every slot. */
  ghost function DestroyState(m: Mem, p: int): Mem {
    var slots := set n | n in m.nodes && InPool(n, p);
    m.(nodes := m.nodes - slots, live := m.live - slots, pools := m.pools - {p}, used := m.used - {p},
        free := m.free - {p})
  }

  lemma DestroyConsistent(m: Mem, p: int)
    requires Consistent(m)
    ensures Consistent(DestroyState(m, p))
  {
    var m' := DestroyState(m, p);
    forall k <- m'.live ensures Placed(m', k) { assert Placed(m, k); }
    forall k <- m'.nodes ensures Accounted(m', k) { assert Accounted(m, k); }
    OtherPools(m, m', p);
  }

  /** A node of its own, from malloc, and its return. */
  ghost function MallocState(m: Mem): Mem {
    var n := Own(m.top);
    m.(nodes := m.nodes[n := ZERO], live := m.live + {n}, top := m.top + 1)
  }

  lemma MallocConsistent(m: Mem)
    requires Consistent(m)
    ensures Consistent(MallocState(m)) && Own(m.top) !in m.live && Own(m.top) !in m.nodes
  {
    var m' := MallocState(m);
    forall k <- m'.live ensures Placed(m', k) { assert k in m.live ==> Placed(m, k); }
    forall k <- m'.nodes ensures Accounted(m', k) { assert k in m.nodes ==> Accounted(m, k); }
    assert Own(m.top) in m.live ==> Placed(m, Own(m.top));
    OtherPools(m, m', m.top);
  }

  ghost function FreeState(m: Mem, n: Ptr): Mem {
    m.(nodes := m.nodes - {n}, live := m.live - {n})
  }

  lemma FreeConsistent(m: Mem, n: Ptr)
    requires Consistent(m) && n in m.live && n.Own?
    ensures Consistent(FreeState(m, n))
  {
    var m' := FreeState(m, n);
    forall k <- m'.live ensures Placed(m', k) { assert Placed(m, k); }
    forall k <- m'.nodes ensures Accounted(m', k) { assert Accounted(m, k); }
    OtherPools(m, m', m.top);
  }

  // ---- a new block ----

  /** The items of a block in the order the loop leaves them on the free list: last first. */
  function Descending(pool: int, block: int, k: int): (s: seq<Ptr>)
    requires k >= 0
    ensures |s| == k && forall i | 0 <= i < k :: s[i] == Slot(pool, block, k - i)
  {
    if k == 0 then [] else [Slot(pool, block, k)] + Descending(pool, block, k - 1)
  }

  /** cJSON_New_PoolBlock, given the nodes its loop has linked. */
  ghost function BlockState(m: Mem, p: int, nodes: map<Ptr, Node>): Mem
    requires PoolOk(m, p)
  {
    var pool := m.pools[p];
    m.(nodes := nodes,
       pools := m.pools[p := Pool(pool.blocks + 1, pool.refcount, Slot(p, pool.blocks, POOL_ALLOC_SIZE))],
       free := m.free[p := Descending(p, pool.blocks, POOL_ALLOC_SIZE) + m.free[p]])
  }

  lemma BlockConsistent(m: Mem, p: int, nodes: map<Ptr, Node>)
    requires Consistent(m) && PoolOk(m, p)
    requires forall n <- nodes :: n in m.nodes || n in Descending(p, m.pools[p].blocks, POOL_ALLOC_SIZE)
    requires forall n <- m.nodes :: n in nodes && nodes[n] == m.nodes[n]
    requires FreeChain(nodes, Slot(p, m.pools[p].blocks, POOL_ALLOC_SIZE),
                       Descending(p, m.pools[p].blocks, POOL_ALLOC_SIZE) + m.free[p])
    ensures Consistent(BlockState(m, p, nodes))
  {
    var m', added := BlockState(m, p, nodes), Descending(p, m.pools[p].blocks, POOL_ALLOC_SIZE);
    forall k <- m'.live ensures Placed(m', k) { assert Placed(m, k); }
    forall k <- m'.nodes ensures Accounted(m', k) {
      assert k in m.nodes ==> Accounted(m, k);
      assert m'.free[p] == added + m.free[p];
    }
    assert forall n <- added :: InPool(n, p) && n.block == m.pools[p].blocks;
    assert PoolOk(m', p);
    OtherPools(m, m', p);
  }
}
