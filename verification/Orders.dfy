/** Turns in a schedule, and the order in which clients succeed. */
module Orders {
  import opened Sequences

  /** A schedule for n clients: whose turn it is, step by step. */
  predicate Turns(n: nat, schedule: seq<nat>) { forall t | 0 <= t < |schedule| :: schedule[t] < n }

  /** The items of the clients named. */
  function ItemsOf(items: seq<string>, order: seq<nat>): seq<string>
    requires forall k | 0 <= k < |order| :: order[k] < |items|
  {
    if order == [] then [] else [items[order[0]]] + ItemsOf(items, order[1..])
  }

  lemma {:induction false} ItemsAppend(items: seq<string>, order: seq<nat>, i: nat)
    requires i < |items| && forall k | 0 <= k < |order| :: order[k] < |items|
    ensures ItemsOf(items, order + [i]) == ItemsOf(items, order) + [items[i]]
  {
    if order == [] {
      assert order + [i] == [i] && [i][1..] == [];
    } else {
      assert (order + [i])[1..] == order[1..] + [i];
      ItemsAppend(items, order[1..], i);
    }
  }

  ghost function Numbers(order: seq<nat>): set<nat> { set k | 0 <= k < |order| :: order[k] }

  lemma {:induction false} CountDistinct(order: seq<nat>)
    requires NoDuplicates(order)
    ensures |Numbers(order)| == |order|
  {
    if order == [] {
    } else {
      var last := order[|order| - 1];
      var front := order[..|order| - 1];
      CountDistinct(front);
      forall k | 0 <= k < |order| ensures order[k] in Numbers(front) + {last} {
        if k < |order| - 1 {
          assert front[k] == order[k];
        }
      }
      assert Numbers(order) == Numbers(front) + {last};
    }
  }

  lemma {:induction false} UpTo(n: nat) returns (all: set<nat>)
    ensures |all| == n && forall i: nat :: i in all <==> i < n
  {
    if n == 0 {
      all := {};
    } else {
      var fewer := UpTo(n - 1);
      all := fewer + {n - 1};
    }
  }

  /** Distinct numbers below n, one of which is missing, are at most n - 1. */
  lemma Missing(order: seq<nat>, n: nat, i: nat)
    requires NoDuplicates(order) && (forall k | 0 <= k < |order| :: order[k] < n) && i < n && i !in order
    ensures |order| <= n - 1
  {
    var all := UpTo(n);
    CountDistinct(order);
    assert Numbers(order) <= all - {i};
    Subset(Numbers(order), all - {i});
  }

  lemma Subset(a: set<nat>, b: set<nat>)
    requires a <= b
    ensures |a| <= |b|
  {
    assert b == a + (b - a);
  }

  lemma AtMost(order: seq<nat>, n: nat)
    requires NoDuplicates(order) && (forall k | 0 <= k < |order| :: order[k] < n)
    ensures |order| <= n
  {
    var all := UpTo(n);
    CountDistinct(order);
    Subset(Numbers(order), all);
  }

  /** A permutation of the numbers up to n, with n taken out. */
  lemma WithoutLast(order: seq<nat>, n: nat, k: nat)
    requires NoDuplicates(order) && k < |order| && order[k] == n && (forall j | 0 <= j < |order| :: order[j] <= n)
    requires forall i: nat | i <= n :: i in order
    ensures NoDuplicates(Without(order, k)) && forall j | 0 <= j < |order| - 1 :: Without(order, k)[j] < n
    ensures forall i: nat | i < n :: i in Without(order, k)
  {
    var rest := Without(order, k);
    forall j | 0 <= j < |rest| ensures rest[j] == order[if j < k then j else j + 1] && rest[j] < n {
    }
    forall i: nat | i < n ensures i in rest {
      assert i in order;
      var j :| 0 <= j < |order| && order[j] == i;
      assert rest[if j < k then j else j - 1] == i;
    }
  }

  /** Distinct numbers below n that are all there make up the whole list, in another order. */
  lemma {:induction false} Permuted(items: seq<string>, order: seq<nat>)
    requires NoDuplicates(order) && (forall k | 0 <= k < |order| :: order[k] < |items|)
    requires forall i: nat | i < |items| :: i in order
    ensures multiset(ItemsOf(items, order)) == multiset(items)
    decreases |items|
  {
    if items == [] {
      AtMost(order, 0);
    } else {
      var n: nat := |items| - 1;
      assert n in order;
      var k :| 0 <= k < |order| && order[k] == n;
      var rest := Without(order, k);
      WithoutLast(order, n, k);
      Permuted(items[..n], rest);
      LastTaken(items, order, k, rest);
    }
  }

  /** The order without the last item is an order of the items in front of it. */
  lemma LastTaken(items: seq<string>, order: seq<nat>, k: nat, rest: seq<nat>)
    requires items != [] && k < |order| && order[k] == |items| - 1 && rest == Without(order, k)
    requires forall j | 0 <= j < |order| :: order[j] < |items|
    requires forall j | 0 <= j < |rest| :: rest[j] < |items| - 1
    requires multiset(ItemsOf(items[..|items| - 1], rest)) == multiset(items[..|items| - 1])
    ensures multiset(ItemsOf(items, order)) == multiset(items)
  {
    TakeItem(items, order, k);
    Shorter(items, rest);
    LastItem(items);
  }

  lemma LastItem(items: seq<string>)
    requires items != []
    ensures multiset(items) == multiset(items[..|items| - 1]) + multiset{items[|items| - 1]}
  {
    assert items == items[..|items| - 1] + [items[|items| - 1]];
  }

  lemma {:induction false} TakeItem(items: seq<string>, order: seq<nat>, k: nat)
    requires k < |order| && forall j | 0 <= j < |order| :: order[j] < |items|
    ensures multiset(ItemsOf(items, order)) == multiset(ItemsOf(items, Without(order, k))) + multiset{items[order[k]]}
  {
    if k == 0 {
      assert Without(order, 0) == order[1..];
    } else {
      assert Without(order, k)[1..] == Without(order[1..], k - 1);
      TakeItem(items, order[1..], k - 1);
    }
  }

  lemma {:induction false} Shorter(items: seq<string>, order: seq<nat>)
    requires items != [] && forall j | 0 <= j < |order| :: order[j] < |items| - 1
    ensures ItemsOf(items, order) == ItemsOf(items[..|items| - 1], order)
  {
    if order == [] {
    } else {
      Shorter(items, order[1..]);
    }
  }

  lemma OneTurnMore(schedule: seq<nat>, turns: seq<nat>, t: nat)
    requires t < |turns|
    ensures schedule + turns[..t + 1] == schedule + turns[..t] + [turns[t]]
  {
  }

  /** One thread more, with c increments. */
  lemma MulNext(n: int, c: int)
    ensures (n + 1) * c == n * c + c
  {
  }
}
