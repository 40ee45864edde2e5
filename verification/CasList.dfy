/** Several clients add one item each to a shared list, with get, append and compare-and-swap replace in
    an unbounded retry loop (c/cas.cc, python/cas.py, Cas.java). A schedule says whose turn it is. */
module CasList {
  import opened Orders
  import opened Sequences

  /** Where a client is: about to get, about to replace the list it has computed, past its loop,
      or gone (its thread has ended, the latch has been counted down). */
  datatype Phase = Reading | Writing(list: seq<string>, cas: nat) | Stored | Gone

  /** `fails` counts the replaces that ended with a mismatch. */
  datatype Client = Client(item: string, phase: Phase, fails: nat)

  /** The document with its CAS, the latch, the clients, and the successful ones in order. The CAS of a
      document is new after every mutation. */
  datatype State = State(list: seq<string>, cas: nat, latch: int, clients: seq<Client>, order: seq<nat>)

  function Fresh(items: seq<string>): (cs: seq<Client>)
    ensures |cs| == |items| && forall i | 0 <= i < |items| :: cs[i] == Client(items[i], Reading, 0)
  {
    if items == [] then [] else [Client(items[0], Reading, 0)] + Fresh(items[1..])
  }

  function Start(list: seq<string>, cas: nat, items: seq<string>): State {
    State(list, cas, |items|, Fresh(items), [])
  }

  /** One atomic operation of client i. */
  function Step(s: State, i: nat): State
    requires i < |s.clients|
  {
    var c := s.clients[i];
    match c.phase
    case Reading => s.(clients := s.clients[i := c.(phase := Writing(s.list + [c.item], s.cas))])
    case Writing(list, cas) =>
      if cas == s.cas then
        s.(list := list, cas := s.cas + 1, clients := s.clients[i := c.(phase := Stored)], order := s.order + [i])
      else
        s.(clients := s.clients[i := c.(phase := Reading, fails := c.fails + 1)])
    case Stored => s.(latch := s.latch - 1, clients := s.clients[i := c.(phase := Gone)])
    case Gone => s
  }

  function Run(s: State, schedule: seq<nat>): (s': State)
    requires Turns(|s.clients|, schedule)
    ensures |s'.clients| == |s.clients|
    decreases |schedule|
  {
    if schedule == [] then s else Run(Step(s, schedule[0]), schedule[1..])
  }

  predicate Finished(c: Client) { c.phase.Stored? || c.phase.Gone? }

  /** A mismatch needs a success of somebody else, after the read it belongs to. */
  ghost predicate ClientOk(s: State, cas0: nat, i: nat)
    requires i < |s.clients|
  {
    var c := s.clients[i];
    && (c.phase.Reading? ==> c.fails <= |s.order|)
    && (c.phase.Writing? ==>
          && cas0 + c.fails <= c.phase.cas <= s.cas
          && (c.phase.cas == s.cas ==> c.phase.list == s.list + [c.item]))
  }

  /** The clients that are not gone. */
  function Present(cs: seq<Client>): nat {
    if cs == [] then 0 else (if cs[0].phase.Gone? then 0 else 1) + Present(cs[1..])
  }

  lemma {:induction false} PresentUpdate(cs: seq<Client>, i: nat, c: Client)
    requires i < |cs|
    ensures Present(cs[i := c]) == Present(cs) - (if cs[i].phase.Gone? then 0 else 1) + (if c.phase.Gone? then 0 else 1)
  {
    if i > 0 {
      assert cs[i := c][1..] == cs[1..][i - 1 := c];
      PresentUpdate(cs[1..], i - 1, c);
    } else {
      assert cs[i := c][1..] == cs[1..];
    }
  }

  /** What holds in every state: the list is the initial list and, in the order of their successes, the
      items of the clients that are past their loops. */
  ghost predicate Inv(list0: seq<string>, cas0: nat, items: seq<string>, s: State) {
    && |s.clients| == |items| && (forall i | 0 <= i < |items| :: s.clients[i].item == items[i])
    && s.latch == Present(s.clients)
    && (forall k | 0 <= k < |s.order| :: s.order[k] < |items|) && NoDuplicates(s.order)
    && s.list == list0 + ItemsOf(items, s.order) && s.cas == cas0 + |s.order|
    && (forall i: nat | i < |items| :: Finished(s.clients[i]) <==> i in s.order)
    && (forall i: nat | i < |items| :: ClientOk(s, cas0, i))
    && (forall k | 0 <= k < |s.order| :: s.clients[s.order[k]].fails <= k)
  }

  /** A replace that succeeds. */
  lemma StoreKeepsInv(list0: seq<string>, cas0: nat, items: seq<string>, s: State, i: nat)
    requires Inv(list0, cas0, items, s) && i < |s.clients|
    requires s.clients[i].phase.Writing? && s.clients[i].phase.cas == s.cas
    ensures Inv(list0, cas0, items, Step(s, i))
  {
    var s' := Step(s, i);
    PresentUpdate(s.clients, i, s'.clients[i]);
    assert ClientOk(s, cas0, i) && !Finished(s.clients[i]) && i !in s.order;
    ItemsAppend(items, s.order, i);
    assert s'.list == list0 + ItemsOf(items, s'.order);
    forall j: nat | j < |items| ensures ClientOk(s', cas0, j) && (Finished(s'.clients[j]) <==> j in s'.order) {
      assert ClientOk(s, cas0, j) && (Finished(s.clients[j]) <==> j in s.order);
    }
  }

  /** Every other step leaves the document alone. */
  lemma OtherKeepsInv(list0: seq<string>, cas0: nat, items: seq<string>, s: State, i: nat)
    requires Inv(list0, cas0, items, s) && i < |s.clients|
    requires !(s.clients[i].phase.Writing? && s.clients[i].phase.cas == s.cas)
    ensures Inv(list0, cas0, items, Step(s, i))
  {
    var s' := Step(s, i);
    PresentUpdate(s.clients, i, s'.clients[i]);
    assert ClientOk(s, cas0, i) && (Finished(s.clients[i]) <==> i in s.order);
    forall j: nat | j < |items| ensures ClientOk(s', cas0, j) && (Finished(s'.clients[j]) <==> j in s'.order) {
      assert ClientOk(s, cas0, j) && (Finished(s.clients[j]) <==> j in s.order);
    }
    forall k | 0 <= k < |s'.order| ensures s'.clients[s'.order[k]].fails <= k {
      assert s.clients[s.order[k]].fails <= k && s.order[k] in s.order;
    }
  }

  lemma StepKeepsInv(list0: seq<string>, cas0: nat, items: seq<string>, s: State, i: nat)
    requires Inv(list0, cas0, items, s) && i < |s.clients|
    ensures Inv(list0, cas0, items, Step(s, i))
  {
    if s.clients[i].phase.Writing? && s.clients[i].phase.cas == s.cas {
      StoreKeepsInv(list0, cas0, items, s, i);
    } else {
      OtherKeepsInv(list0, cas0, items, s, i);
    }
  }

  lemma {:induction false} RunKeepsInv(list0: seq<string>, cas0: nat, items: seq<string>, s: State, schedule: seq<nat>)
    requires Inv(list0, cas0, items, s) && Turns(|items|, schedule)
    ensures Inv(list0, cas0, items, Run(s, schedule))
    decreases |schedule|
  {
    if schedule == [] {
    } else {
      StepKeepsInv(list0, cas0, items, s, schedule[0]);
      RunKeepsInv(list0, cas0, items, Step(s, schedule[0]), schedule[1..]);
    }
  }

  lemma {:induction false} StartPresent(items: seq<string>)
    ensures Present(Fresh(items)) == |items|
  {
    if items == [] {
    } else {
      StartPresent(items[1..]);
    }
  }

  /** No update is lost, in any state of any run from a list that is there. */
  lemma NoLostUpdates(list: seq<string>, cas: nat, items: seq<string>, schedule: seq<nat>)
    requires Turns(|items|, schedule)
    ensures Inv(list, cas, items, Run(Start(list, cas, items), schedule))
  {
    StartPresent(items);
    RunKeepsInv(list, cas, items, Start(list, cas, items), schedule);
  }

  // ---- how often a replace fails ----

  lemma FailsInState(list0: seq<string>, cas0: nat, items: seq<string>, s: State, i: nat)
    requires Inv(list0, cas0, items, s) && i < |items|
    ensures s.clients[i].fails <= |items| - 1
  {
    assert ClientOk(s, cas0, i) && (Finished(s.clients[i]) <==> i in s.order);
    if i in s.order {
      var k :| 0 <= k < |s.order| && s.order[k] == i;
      AtMost(s.order, |items|);
    } else {
      Missing(s.order, |items|, i);
    }
  }

  /** With n clients no replace fails more than n - 1 times. */
  lemma FailsBounded(list: seq<string>, cas: nat, items: seq<string>, schedule: seq<nat>, i: nat)
    requires Turns(|items|, schedule) && i < |items|
    ensures Run(Start(list, cas, items), schedule).clients[i].fails <= |items| - 1
  {
    NoLostUpdates(list, cas, items, schedule);
    FailsInState(list, cas, items, Run(Start(list, cas, items), schedule), i);
  }

  // ---- when the latch opens ----

  lemma {:induction false} NobodyPresent(cs: seq<Client>)
    requires Present(cs) == 0
    ensures forall i | 0 <= i < |cs| :: cs[i].phase.Gone?
  {
    if cs == [] {
    } else {
      NobodyPresent(cs[1..]);
      forall i | 0 <= i < |cs| ensures cs[i].phase.Gone? {
        assert i > 0 ==> cs[i] == cs[1..][i - 1];
      }
    }
  }

  /** When the latch is down to zero (all threads have ended), every item is in the list once. */
  lemma LatchMeansAll(list: seq<string>, cas: nat, items: seq<string>, schedule: seq<nat>)
    requires Turns(|items|, schedule) && Run(Start(list, cas, items), schedule).latch == 0
    ensures var s := Run(Start(list, cas, items), schedule);
            && multiset(s.list) == multiset(list) + multiset(items) && |s.list| == |list| + |items|
            && list <= s.list
  {
    var s := Run(Start(list, cas, items), schedule);
    NoLostUpdates(list, cas, items, schedule);
    NobodyPresent(s.clients);
    forall i: nat | i < |items| ensures i in s.order {
      assert Finished(s.clients[i]) <==> i in s.order;
    }
    Permuted(items, s.order);
    assert multiset(s.list) == multiset(list) + multiset(items);
    assert |s.list| == |multiset(s.list)|;
  }

  // ---- progress ----

  /** The steps a client still needs if nobody succeeds before it; a replace that is bound to fail costs two more. */
  function Debt(c: Client, cas: nat): nat {
    match c.phase
    case Reading => 3
    case Writing(_, seen) => if seen == cas then 2 else 4
    case Stored => 1
    case Gone => 0
  }

  function DebtAll(cs: seq<Client>, cas: nat): nat {
    if cs == [] then 0 else Debt(cs[0], cas) + DebtAll(cs[1..], cas)
  }

  /** The clients that have not succeeded yet. */
  function Trying(cs: seq<Client>): nat {
    if cs == [] then 0 else (if Finished(cs[0]) then 0 else 1) + Trying(cs[1..])
  }

  /** The steps a client has made: two for every failure, and those of its last turn. */
  function Work(c: Client): nat {
    2 * c.fails + match c.phase
                  case Reading => 0
                  case Writing(_, _) => 1
                  case Stored => 2
                  case Gone => 3
  }

  function WorkAll(cs: seq<Client>): nat { if cs == [] then 0 else Work(cs[0]) + WorkAll(cs[1..]) }

  /** An upper bound for the steps still to come: every success can spoil the replaces of all clients still trying. */
  function Measure(s: State): int {
    DebtAll(s.clients, s.cas) + Trying(s.clients) * (Trying(s.clients) - 1)
  }

  lemma {:induction false} UpdateSums(cs: seq<Client>, i: nat, c: Client, cas: nat)
    requires i < |cs|
    ensures DebtAll(cs[i := c], cas) == DebtAll(cs, cas) - Debt(cs[i], cas) + Debt(c, cas)
    ensures WorkAll(cs[i := c]) == WorkAll(cs) - Work(cs[i]) + Work(c)
    ensures Trying(cs[i := c]) == Trying(cs) - (if Finished(cs[i]) then 0 else 1) + (if Finished(c) then 0 else 1)
  {
    if i > 0 {
      assert cs[i := c][1..] == cs[1..][i - 1 := c];
      UpdateSums(cs[1..], i - 1, c, cas);
    } else {
      assert cs[i := c][1..] == cs[1..];
    }
  }

  /** A new CAS spoils at most the replaces of the clients still trying. */
  lemma {:induction false} SpoilSums(cs: seq<Client>, cas: nat)
    ensures DebtAll(cs, cas + 1) <= DebtAll(cs, cas) + 2 * Trying(cs)
  {
    if cs == [] {
    } else {
      SpoilSums(cs[1..], cas);
    }
  }

  lemma NextFactor(r: int)
    ensures (r - 1) * (r - 1 - 1) + 2 * (r - 1) == r * (r - 1)
  {
  }

  /** Every step of a client that is not gone counts as work and pays off at least as much. */
  lemma StepPays(s: State, i: nat)
    requires i < |s.clients| && !s.clients[i].phase.Gone?
    ensures WorkAll(Step(s, i).clients) == WorkAll(s.clients) + 1
    ensures Measure(Step(s, i)) <= Measure(s) - 1
  {
    var s' := Step(s, i);
    UpdateSums(s.clients, i, s'.clients[i], s.cas);
    if s'.cas != s.cas {
      SpoilSums(s'.clients, s.cas);
      NextFactor(Trying(s.clients));
    }
  }

  /** Only clients that are not gone are given a turn. */
  ghost predicate Busy(s: State, schedule: seq<nat>)
    requires Turns(|s.clients|, schedule)
    decreases |schedule|
  {
    schedule == [] || (!s.clients[schedule[0]].phase.Gone? && Busy(Step(s, schedule[0]), schedule[1..]))
  }

  lemma {:induction false} RunPays(s: State, schedule: seq<nat>)
    requires Turns(|s.clients|, schedule) && Busy(s, schedule)
    ensures Measure(Run(s, schedule)) <= Measure(s) - |schedule|
    decreases |schedule|
  {
    if schedule == [] {
    } else {
      StepPays(s, schedule[0]);
      RunPays(Step(s, schedule[0]), schedule[1..]);
    }
  }

  /** On any schedule the work done is paid for. */
  lemma {:induction false} RunIsPaid(s: State, schedule: seq<nat>)
    requires Turns(|s.clients|, schedule)
    ensures WorkAll(Run(s, schedule).clients) + Measure(Run(s, schedule)) <= WorkAll(s.clients) + Measure(s)
    decreases |schedule|
  {
    if schedule == [] {
    } else {
      if !s.clients[schedule[0]].phase.Gone? {
        StepPays(s, schedule[0]);
      }
      RunIsPaid(Step(s, schedule[0]), schedule[1..]);
    }
  }

  lemma {:induction false} StartSums(items: seq<string>, cas: nat)
    ensures DebtAll(Fresh(items), cas) == 3 * |items| && Trying(Fresh(items)) == |items| && WorkAll(Fresh(items)) == 0
  {
    if items == [] {
    } else {
      StartSums(items[1..], cas);
    }
  }

  lemma MeasureCovers(s: State)
    ensures Measure(s) >= DebtAll(s.clients, s.cas)
  {
    FactorIsNat(Trying(s.clients));
  }

  lemma FactorIsNat(r: nat)
    ensures r * (r - 1) >= 0
  {
    if r > 0 {
      assert r - 1 >= 0;
    }
  }

  lemma StartMeasure(list: seq<string>, cas: nat, items: seq<string>)
    ensures Measure(Start(list, cas, items)) == |items| * (|items| + 2) && WorkAll(Start(list, cas, items).clients) == 0
    ensures |items| * (|items| + 2) == 3 * |items| + |items| * (|items| - 1)
  {
    StartSums(items, cas);
    Expand(|items|);
  }

  lemma Expand(n: int)
    ensures n * (n + 2) == 3 * n + n * (n - 1)
  {
  }

  /** Lock-free progress: whatever the schedule, after n * (n + 2) steps of clients that are not gone all
      clients are gone; no run retries for ever. */
  lemma RunsEnd(list: seq<string>, cas: nat, items: seq<string>, schedule: seq<nat>)
    requires Turns(|items|, schedule) && Busy(Start(list, cas, items), schedule)
    ensures |schedule| <= |items| * (|items| + 2)
    ensures |schedule| == |items| * (|items| + 2) ==> Run(Start(list, cas, items), schedule).latch == 0
  {
    var s := Run(Start(list, cas, items), schedule);
    StartMeasure(list, cas, items);
    RunPays(Start(list, cas, items), schedule);
    MeasureCovers(s);
    NoLostUpdates(list, cas, items, schedule);
    NobodyOwes(s.clients, s.cas);
  }

  lemma {:induction false} NobodyOwes(cs: seq<Client>, cas: nat)
    ensures DebtAll(cs, cas) >= Present(cs)
  {
    if cs == [] {
    } else {
      NobodyOwes(cs[1..], cas);
    }
  }

  function FailsAll(cs: seq<Client>): nat { if cs == [] then 0 else cs[0].fails + FailsAll(cs[1..]) }

  lemma {:induction false} WorkIsFails(cs: seq<Client>, cas: nat)
    ensures WorkAll(cs) + DebtAll(cs, cas) >= 2 * FailsAll(cs) + 3 * |cs|
  {
    if cs == [] {
    } else {
      WorkIsFails(cs[1..], cas);
    }
  }

  /** On every schedule all n clients together fail at most n * (n - 1) / 2 times. */
  lemma AllFailsBounded(list: seq<string>, cas: nat, items: seq<string>, schedule: seq<nat>)
    requires Turns(|items|, schedule)
    ensures 2 * FailsAll(Run(Start(list, cas, items), schedule).clients) <= |items| * (|items| - 1)
  {
    var s := Run(Start(list, cas, items), schedule);
    StartMeasure(list, cas, items);
    RunIsPaid(Start(list, cas, items), schedule);
    MeasureCovers(s);
    WorkIsFails(s.clients, s.cas);
  }

  // ---- the bounds are met ----

  lemma {:induction false} RunAppend(s: State, a: seq<nat>, b: seq<nat>)
    requires Turns(|s.clients|, a) && Turns(|s.clients|, b)
    ensures Turns(|s.clients|, a + b) && Run(s, a + b) == Run(Run(s, a), b)
    decreases |a|
  {
    if a == [] {
      assert a + b == b;
    } else {
      assert (a + b)[1..] == a[1..] + b;
      RunAppend(Step(s, a[0]), a[1..], b);
    }
  }

  /** In every round client 0 gets, another client adds its item, and client 0's replace comes too late. */
  function Outpaced(m: nat): (schedule: seq<nat>)
    ensures forall t | 0 <= t < |schedule| :: schedule[t] <= m
  {
    if m == 0 then [] else Outpaced(m - 1) + [0] + [m] + [m] + [0]
  }

  lemma RunOneMore(s: State, schedule: seq<nat>, i: nat)
    requires Turns(|s.clients|, schedule) && i < |s.clients|
    ensures Turns(|s.clients|, schedule + [i]) && Run(s, schedule + [i]) == Step(Run(s, schedule), i)
  {
    RunAppend(s, schedule, [i]);
    assert [i][1..] == [];
    assert Run(Run(s, schedule), [i]) == Run(Step(Run(s, schedule), i), []);
  }

  /** A client can fail once for every other client: n - 1 failures happen. */
  lemma {:induction false} FailsReached(list: seq<string>, cas: nat, items: seq<string>, m: nat)
    requires m < |items|
    ensures Turns(|items|, Outpaced(m))
    ensures var s := Run(Start(list, cas, items), Outpaced(m));
            && s.clients[0] == Client(items[0], Reading, m) && s.cas == cas + m
            && forall j | m < j < |items| :: s.clients[j] == Client(items[j], Reading, 0)
  {
    if m == 0 {
    } else {
      FailsReached(list, cas, items, m - 1);
      var s, o := Start(list, cas, items), Outpaced(m - 1);
      RunOneMore(s, o, 0);
      RunOneMore(s, o + [0], m);
      RunOneMore(s, o + [0] + [m], m);
      RunOneMore(s, o + [0] + [m] + [m], 0);
    }
  }

  /** Before round k the clients below k have succeeded, the j-th after j failures; the others are at their
      get, after k failures. */
  ghost predicate Round(s: State, n: nat, k: nat) {
    |s.clients| == n && forall j | 0 <= j < n :: RoundOf(s.clients[j], j, k)
  }

  ghost predicate RoundOf(c: Client, j: int, k: nat) {
    if j < k then Finished(c) && c.fails == j else c.phase.Reading? && c.fails == k
  }

  /** In round k the clients below i have got the list. */
  ghost predicate Got(s: State, n: nat, k: nat, i: nat) {
    |s.clients| == n && forall j | 0 <= j < n :: GotOf(s.clients[j], j, k, i, s.cas)
  }

  ghost predicate GotOf(c: Client, j: int, k: nat, i: nat, cas: nat) {
    if k <= j < i then c.phase.Writing? && c.phase.cas == cas && c.fails == k else RoundOf(c, j, k)
  }

  /** In round k client k has succeeded and the clients behind it below i have failed. */
  ghost predicate Failed(s: State, n: nat, k: nat, i: nat) {
    |s.clients| == n && forall j | 0 <= j < n :: FailedOf(s.clients[j], j, k, i, s.cas)
  }

  ghost predicate FailedOf(c: Client, j: int, k: nat, i: nat, cas: nat) {
    if j < i then RoundOf(c, j, k + 1) else c.phase.Writing? && c.phase.cas < cas && c.fails == k
  }

  lemma GetInTurn(s: State, n: nat, k: nat, i: nat)
    requires Got(s, n, k, i) && k <= i < n
    ensures Got(Step(s, i), n, k, i + 1)
  {
    assert GotOf(s.clients[i], i, k, i, s.cas);
    forall j | 0 <= j < n ensures GotOf(Step(s, i).clients[j], j, k, i + 1, s.cas) {
      assert GotOf(s.clients[j], j, k, i, s.cas);
    }
  }

  lemma StoreFirst(s: State, n: nat, k: nat)
    requires Got(s, n, k, n) && k < n
    ensures Failed(Step(s, k), n, k, k + 1)
  {
    assert GotOf(s.clients[k], k, k, n, s.cas);
    forall j | 0 <= j < n ensures FailedOf(Step(s, k).clients[j], j, k, k + 1, s.cas + 1) {
      assert GotOf(s.clients[j], j, k, n, s.cas);
    }
  }

  lemma FailInTurn(s: State, n: nat, k: nat, i: nat)
    requires Failed(s, n, k, i) && k < i < n
    ensures Failed(Step(s, i), n, k, i + 1)
  {
    assert FailedOf(s.clients[i], i, k, i, s.cas);
    forall j | 0 <= j < n ensures FailedOf(Step(s, i).clients[j], j, k, i + 1, s.cas) {
      assert FailedOf(s.clients[j], j, k, i, s.cas);
    }
  }

  /** Everybody who has not succeeded gets; then they replace in turn, and only the first is in time. */
  lemma OneRound(s: State, n: nat, before: seq<nat>, k: nat) returns (schedule: seq<nat>)
    requires |s.clients| == n && Turns(n, before) && Round(Run(s, before), n, k) && k < n
    ensures Turns(n, schedule) && Round(Run(s, schedule), n, k + 1)
  {
    schedule := before;
    var i := k;
    forall j | 0 <= j < n ensures GotOf(Run(s, before).clients[j], j, k, k, Run(s, before).cas) {
      assert RoundOf(Run(s, before).clients[j], j, k);
    }
    while i < n
      invariant k <= i <= n && Turns(n, schedule) && Got(Run(s, schedule), n, k, i)
    {
      GetInTurn(Run(s, schedule), n, k, i);
      RunOneMore(s, schedule, i);
      schedule, i := schedule + [i], i + 1;
    }
    StoreFirst(Run(s, schedule), n, k);
    RunOneMore(s, schedule, k);
    schedule, i := schedule + [k], k + 1;
    while i < n
      invariant k < i <= n && Turns(n, schedule) && Failed(Run(s, schedule), n, k, i)
    {
      FailInTurn(Run(s, schedule), n, k, i);
      RunOneMore(s, schedule, i);
      schedule, i := schedule + [i], i + 1;
    }
    forall j | 0 <= j < n ensures RoundOf(Run(s, schedule).clients[j], j, k + 1) {
      assert FailedOf(Run(s, schedule).clients[j], j, k, n, Run(s, schedule).cas);
    }
  }

  lemma {:induction false} SumOfFails(cs: seq<Client>, k: nat)
    requires forall j | 0 <= j < |cs| :: cs[j].fails == k + j
    ensures 2 * FailsAll(cs) == |cs| * (2 * k + |cs| - 1)
  {
    if cs == [] {
    } else {
      SumOfFails(cs[1..], k + 1);
      NextRow(|cs|, k);
    }
  }

  lemma NextRow(n: int, k: int)
    ensures (n - 1) * (2 * (k + 1) + (n - 1) - 1) + 2 * k == n * (2 * k + n - 1)
  {
  }

  /** All clients together can fail n * (n - 1) / 2 times. */
  lemma AllFailsReached(list: seq<string>, cas: nat, items: seq<string>) returns (schedule: seq<nat>)
    ensures Turns(|items|, schedule)
    ensures 2 * FailsAll(Run(Start(list, cas, items), schedule).clients) == |items| * (|items| - 1)
  {
    var s, k := Start(list, cas, items), 0;
    schedule := [];
    while k < |items|
      invariant 0 <= k <= |items| && Turns(|items|, schedule) && Round(Run(s, schedule), |items|, k)
    {
      schedule := OneRound(s, |items|, schedule, k);
      k := k + 1;
    }
    var cs := Run(s, schedule).clients;
    forall j | 0 <= j < |cs| ensures cs[j].fails == 0 + j {
      assert RoundOf(cs[j], j, k);
    }
    SumOfFails(cs, 0);
  }

  // ---- the code of one thread ----

  /** The bucket and all threads. Between two operations of a thread the others take any turns. */
  class Program {
    var state: State

    constructor (list: seq<string>, cas: nat, items: seq<string>)
      ensures state == Start(list, cas, items)
    {
      state := Start(list, cas, items);
    }

    method Get(me: nat) returns (list: seq<string>, cas: nat)
      requires me < |state.clients| && state.clients[me].phase.Reading?
      modifies this
      ensures state == Step(old(state), me) && list == old(state.list) && cas == old(state.cas)
    {
      list, cas := state.list, state.cas;
      Put(me, state.clients[me].(phase := Writing(list + [state.clients[me].item], cas)));
    }

    /** Stores the list if the document still has this CAS, and gives it a new one; else a mismatch. */
    method Replace(me: nat, list: seq<string>, cas: nat) returns (ok: bool)
      requires me < |state.clients| && state.clients[me].phase == Writing(list, cas)
      modifies this
      ensures state == Step(old(state), me) && ok == state.clients[me].phase.Stored?
    {
      ok := state.cas == cas;
      var c := state.clients[me];
      if ok {
        state := state.(list := list, cas := state.cas + 1, order := state.order + [me]);
        Put(me, c.(phase := Stored));
      } else {
        Put(me, c.(phase := Reading, fails := c.fails + 1));
      }
    }

    method CountDown(me: nat)
      requires me < |state.clients| && state.clients[me].phase.Stored?
      modifies this
      ensures state == Step(old(state), me)
    {
      state := state.(latch := state.latch - 1);
      Put(me, state.clients[me].(phase := Gone));
    }

    method Put(me: nat, c: Client)
      requires me < |state.clients|
      modifies this
      ensures state == old(state).(clients := old(state).clients[me := c])
    {
      state := state.(clients := state.clients[me := c]);
    }

    /** Other threads take these turns. */
    method Others(me: nat, turns: seq<nat>, ghost before: State, ghost schedule: seq<nat>)
      requires me < |state.clients| == |before.clients| && Turns(|state.clients|, turns) && me !in turns
      requires Turns(|before.clients|, schedule) && state == Run(before, schedule)
      modifies this
      ensures Turns(|before.clients|, schedule + turns) && state == Run(before, schedule + turns)
      ensures state.clients[me] == old(state.clients[me])
    {
      assert schedule + turns[..0] == schedule;
      for t := 0 to |turns|
        invariant Turns(|before.clients|, schedule + turns[..t]) && state == Run(before, schedule + turns[..t])
        invariant state.clients[me] == old(state.clients[me])
      {
        OneTurnMore(schedule, turns, t);
        assert turns[t] in turns;
        RunOneMore(before, schedule + turns[..t], turns[t]);
        state := Step(state, turns[t]);
      }
      assert turns[..|turns|] == turns;
    }

    /** iterationWithCAS, thread_func_safe, add_item_to_list_safe: before its k-th operation the others
        take the turns others(k). The loop ends, and it does what the steps of the thread do. */
    method IterationWithCas(me: nat, others: nat -> seq<nat>, ghost list0: seq<string>, ghost cas0: nat,
                            ghost items: seq<string>)
      returns (ghost schedule: seq<nat>)
      requires Inv(list0, cas0, items, state) && me < |items| && state.clients[me] == Client(items[me], Reading, 0)
      requires forall k :: Turns(|items|, others(k)) && me !in others(k)
      modifies this
      ensures Turns(|items|, schedule) && state == Run(old(state), schedule)
      ensures state.clients[me].phase.Gone? && Inv(list0, cas0, items, state) && items[me] in state.list
    {
      ghost var before := state;
      var k := 0;
      schedule := [];
      while true
        invariant Turns(|items|, schedule) && state == Run(before, schedule)
        invariant state.clients[me].phase.Reading? && state.clients[me].item == items[me]
        decreases |items| - state.clients[me].fails
      {
        var list, cas;
        list, cas, schedule := GetAfter(me, others(k), before, schedule);
        var ok;
        ok, schedule := ReplaceAfter(me, others(k + 1), list + [state.clients[me].item], cas, before, schedule);
        k := k + 2;
        if ok {
          break;
        }
        RunKeepsInv(list0, cas0, items, before, schedule);
        FailsInState(list0, cas0, items, state, me);
      }
      Others(me, others(k), before, schedule);
      schedule := schedule + others(k);
      CountDown(me);
      RunOneMore(before, schedule, me);
      schedule := schedule + [me];
      RunKeepsInv(list0, cas0, items, before, schedule);
      FinishedIsIn(list0, cas0, items, state, me);
    }

    method GetAfter(me: nat, turns: seq<nat>, ghost before: State, ghost schedule0: seq<nat>)
      returns (list: seq<string>, cas: nat, ghost schedule: seq<nat>)
      requires me < |state.clients| == |before.clients| && Turns(|state.clients|, turns) && me !in turns
      requires Turns(|before.clients|, schedule0) && state == Run(before, schedule0) && state.clients[me].phase.Reading?
      modifies this
      ensures Turns(|before.clients|, schedule) && state == Run(before, schedule)
      ensures state.clients[me] == old(state.clients[me]).(phase := Writing(list + [old(state.clients[me]).item], cas))
    {
      Others(me, turns, before, schedule0);
      schedule := schedule0 + turns;
      list, cas := Get(me);
      RunOneMore(before, schedule, me);
      schedule := schedule + [me];
    }

    method ReplaceAfter(me: nat, turns: seq<nat>, list: seq<string>, cas: nat, ghost before: State,
                        ghost schedule0: seq<nat>)
      returns (ok: bool, ghost schedule: seq<nat>)
      requires me < |state.clients| == |before.clients| && Turns(|state.clients|, turns) && me !in turns
      requires Turns(|before.clients|, schedule0) && state == Run(before, schedule0)
      requires state.clients[me].phase == Writing(list, cas)
      modifies this
      ensures Turns(|before.clients|, schedule) && state == Run(before, schedule)
      ensures var c := old(state.clients[me]);
              state.clients[me] == if ok then c.(phase := Stored) else c.(phase := Reading, fails := c.fails + 1)
    {
      Others(me, turns, before, schedule0);
      schedule := schedule0 + turns;
      ok := Replace(me, list, cas);
      RunOneMore(before, schedule, me);
      schedule := schedule + [me];
    }
  }

  lemma FinishedIsIn(list0: seq<string>, cas0: nat, items: seq<string>, s: State, i: nat)
    requires Inv(list0, cas0, items, s) && i < |items| && Finished(s.clients[i])
    ensures items[i] in s.list
  {
    assert i in s.order;
    var k :| 0 <= k < |s.order| && s.order[k] == i;
    ItemsAt(items, s.order, k);
    assert s.list[|list0| + k] == items[i];
  }

  lemma {:induction false} ItemsAt(items: seq<string>, order: seq<nat>, k: nat)
    requires k < |order| && forall j | 0 <= j < |order| :: order[j] < |items|
    ensures |ItemsOf(items, order)| == |order| && ItemsOf(items, order)[k] == items[order[k]]
  {
    if k > 0 {
      ItemsAt(items, order[1..], k - 1);
    } else {
      ItemsLength(items, order);
    }
  }

  lemma {:induction false} ItemsLength(items: seq<string>, order: seq<nat>)
    requires forall j | 0 <= j < |order| :: order[j] < |items|
    ensures |ItemsOf(items, order)| == |order|
  {
    if order == [] {
    } else {
      ItemsLength(items, order[1..]);
    }
  }
}
