/** UpdateNumberWithCas of dotnet/Cas.cs: threads that increment a shared number a given number of times,
    each increment with compare-and-swap and a budget of retries. */
module CasCounter {
  import opened Orders

  /** `var retries = 100` */
  const RETRIES := 100

  datatype Phase = Reading | Writing(number: int, cas: nat)

  /** `left` increments are still to be done; `stored` and `abandoned` count those that are through,
      `fails` all replaces that ended with a mismatch. */
  datatype Thread = Thread(left: nat, phase: Phase, retries: int, stored: nat, abandoned: nat, fails: nat)

  /** The document with its CAS, which is new after every mutation, and the threads. */
  datatype State = State(number: int, cas: nat, threads: seq<Thread>)

  function NewThread(count: nat): Thread { Thread(count, Reading, RETRIES, 0, 0, 0) }

  function Started(n: nat, count: nat): (ts: seq<Thread>)
    ensures |ts| == n && forall i | 0 <= i < n :: ts[i] == NewThread(count)
  {
    if n == 0 then [] else [NewThread(count)] + Started(n - 1, count)
  }

  /** n threads, each of which is to increment `count` times. */
  function Start(number: int, cas: nat, n: nat, count: nat): State { State(number, cas, Started(n, count)) }

  /** The next round of `for (int i = 0; i < count; i++)`. */
  function NextRound(t: Thread): Thread
    requires t.left > 0
  {
    t.(left := t.left - 1, phase := Reading, retries := RETRIES)
  }

  /** The loop condition after a mismatch: `retries-- > 0`. */
  function Mismatch(t: Thread): Thread
    requires t.left > 0
  {
    var u := t.(fails := t.fails + 1, phase := Reading);
    if t.retries > 0 then u.(retries := t.retries - 1) else NextRound(u.(abandoned := t.abandoned + 1))
  }

  /** One atomic operation of thread i. */
  function Step(s: State, i: nat): State
    requires i < |s.threads|
  {
    var t := s.threads[i];
    if t.left == 0 then s else
    match t.phase
    case Reading => s.(threads := s.threads[i := t.(phase := Writing(s.number + 1, s.cas))])
    case Writing(number, cas) =>
      if cas == s.cas then State(number, s.cas + 1, s.threads[i := NextRound(t.(stored := t.stored + 1))])
      else s.(threads := s.threads[i := Mismatch(t)])
  }

  function Run(s: State, schedule: seq<nat>): (s': State)
    requires Turns(|s.threads|, schedule)
    ensures |s'.threads| == |s.threads|
    decreases |schedule|
  {
    if schedule == [] then s else Run(Step(s, schedule[0]), schedule[1..])
  }

  function Stored(ts: seq<Thread>): nat { if ts == [] then 0 else ts[0].stored + Stored(ts[1..]) }

  lemma {:induction false} StoredUpdate(ts: seq<Thread>, i: nat, t: Thread)
    requires i < |ts|
    ensures Stored(ts[i := t]) == Stored(ts) - ts[i].stored + t.stored
  {
    if i > 0 {
      assert ts[i := t][1..] == ts[1..][i - 1 := t];
      StoredUpdate(ts[1..], i - 1, t);
    } else {
      assert ts[i := t][1..] == ts[1..];
    }
  }

  ghost predicate ThreadOk(s: State, cas0: nat, count: nat, i: nat)
    requires i < |s.threads|
  {
    var t := s.threads[i];
    && t.stored + t.abandoned + t.left == count
    && 0 <= t.retries <= RETRIES && t.fails >= (RETRIES + 1) * t.abandoned + (RETRIES - t.retries)
    && (t.left == 0 ==> t.retries == RETRIES && t.phase.Reading?)
    && cas0 + t.fails + t.stored <= (if t.phase.Writing? then t.phase.cas else s.cas) <= s.cas
    && (t.phase.Writing? && t.phase.cas == s.cas ==> t.phase.number == s.number + 1)
  }

  /** What holds in every state: the number counts the successful replaces. */
  ghost predicate Inv(number0: int, cas0: nat, n: nat, count: nat, s: State) {
    && |s.threads| == n && s.number == number0 + Stored(s.threads) && s.cas == cas0 + Stored(s.threads)
    && forall i: nat | i < n :: ThreadOk(s, cas0, count, i)
  }

  lemma StepKeepsInv(number0: int, cas0: nat, n: nat, count: nat, s: State, i: nat)
    requires Inv(number0, cas0, n, count, s) && i < n
    ensures Inv(number0, cas0, n, count, Step(s, i))
  {
    var s' := Step(s, i);
    assert ThreadOk(s, cas0, count, i);
    StoredUpdate(s.threads, i, s'.threads[i]);
    assert s.threads[i := s.threads[i]] == s.threads;
    OwnThread(s, cas0, count, i);
    forall j: nat | j < n ensures ThreadOk(s', cas0, count, j) {
      assert ThreadOk(s, cas0, count, j);
    }
  }

  lemma OwnThread(s: State, cas0: nat, count: nat, i: nat)
    requires i < |s.threads| && ThreadOk(s, cas0, count, i)
    ensures ThreadOk(Step(s, i), cas0, count, i)
  {
  }

  lemma {:induction false} RunKeepsInv(number0: int, cas0: nat, n: nat, count: nat, s: State, schedule: seq<nat>)
    requires Inv(number0, cas0, n, count, s) && Turns(n, schedule)
    ensures Inv(number0, cas0, n, count, Run(s, schedule))
    decreases |schedule|
  {
    if schedule == [] {
    } else {
      StepKeepsInv(number0, cas0, n, count, s, schedule[0]);
      RunKeepsInv(number0, cas0, n, count, Step(s, schedule[0]), schedule[1..]);
    }
  }

  lemma {:induction false} StartStored(n: nat, count: nat)
    ensures Stored(Started(n, count)) == 0
  {
    if n == 0 {
    } else {
      StartStored(n - 1, count);
    }
  }

  /** In every state of every run the number is the initial one plus the successful replaces. */
  lemma NumberCountsSuccesses(number: int, cas: nat, n: nat, count: nat, schedule: seq<nat>)
    requires Turns(n, schedule)
    ensures Inv(number, cas, n, count, Run(Start(number, cas, n, count), schedule))
  {
    StartStored(n, count);
    RunKeepsInv(number, cas, n, count, Start(number, cas, n, count), schedule);
  }

  // ---- how many increments are abandoned ----

  /** The other threads store at most `count` increments each. */
  lemma {:induction false} OthersStore(ts: seq<Thread>, count: nat, i: nat)
    requires i < |ts| && forall j | 0 <= j < |ts| :: ts[j].stored <= count
    ensures Stored(ts) <= ts[i].stored + (|ts| - 1) * count
  {
    if i == 0 {
      AllStore(ts[1..], count);
    } else {
      OthersStore(ts[1..], count, i - 1);
      MulNext(|ts| - 2, count);
    }
  }

  lemma {:induction false} AllStore(ts: seq<Thread>, count: nat)
    requires forall j | 0 <= j < |ts| :: ts[j].stored <= count
    ensures Stored(ts) <= |ts| * count
  {
    if ts == [] {
    } else {
      AllStore(ts[1..], count);
      MulNext(|ts| - 1, count);
    }
  }

  /** Every abandoned increment has used up a budget of 101 attempts, and each attempt was spoiled by a
      success of another thread: a thread abandons at most (n - 1) * count / 101 increments. */
  lemma AbandonedBounded(number: int, cas: nat, n: nat, count: nat, schedule: seq<nat>, i: nat)
    requires Turns(n, schedule) && i < n
    ensures Run(Start(number, cas, n, count), schedule).threads[i].abandoned <= (n - 1) * count / (RETRIES + 1)
  {
    var s := Run(Start(number, cas, n, count), schedule);
    NumberCountsSuccesses(number, cas, n, count, schedule);
    forall j: nat | j < n ensures s.threads[j].stored <= count {
      assert ThreadOk(s, cas, count, j);
    }
    OthersStore(s.threads, count, i);
    assert ThreadOk(s, cas, count, i);
    Quotient(s.threads[i].abandoned, RETRIES + 1, (n - 1) * count);
  }

  lemma Quotient(a: int, d: int, m: int)
    requires d > 0 && d * a <= m
    ensures a <= m / d
  {
    if a > m / d {
      Grows(d, m / d, a);
    }
  }

  lemma {:induction false} Grows(d: int, q: int, a: int)
    requires d > 0 && a > q
    ensures d * a >= d * q + d
    decreases a - q
  {
    if a > q + 1 {
      Grows(d, q, a - 1);
      assert d * a == d * (a - 1) + d;
    }
  }

  function Abandoned(ts: seq<Thread>): nat { if ts == [] then 0 else ts[0].abandoned + Abandoned(ts[1..]) }

  ghost predicate AllDone(s: State) { forall i | 0 <= i < |s.threads| :: s.threads[i].left == 0 }

  lemma {:induction false} DoneSums(ts: seq<Thread>, count: nat, bound: nat)
    requires forall i | 0 <= i < |ts| :: ts[i].stored + ts[i].abandoned == count && ts[i].abandoned <= bound
    ensures Stored(ts) + Abandoned(ts) == |ts| * count && Abandoned(ts) <= |ts| * bound
  {
    if ts == [] {
    } else {
      DoneSums(ts[1..], count, bound);
      MulNext(|ts| - 1, count);
      MulNext(|ts| - 1, bound);
    }
  }

  /** When all threads are done, the number is n * count less the increments abandoned. */
  lemma FinalNumber(number: int, cas: nat, n: nat, count: nat, schedule: seq<nat>)
    requires Turns(n, schedule) && n > 0 && AllDone(Run(Start(number, cas, n, count), schedule))
    ensures var s := Run(Start(number, cas, n, count), schedule);
            && s.number == number + n * count - Abandoned(s.threads)
            && Abandoned(s.threads) <= n * ((n - 1) * count / (RETRIES + 1))
  {
    var s := Run(Start(number, cas, n, count), schedule);
    NumberCountsSuccesses(number, cas, n, count, schedule);
    Nonnegative(n - 1, count);
    forall i: nat | i < n
      ensures s.threads[i].stored + s.threads[i].abandoned == count
           && s.threads[i].abandoned <= (n - 1) * count / (RETRIES + 1)
    {
      assert ThreadOk(s, cas, count, i);
      AbandonedBounded(number, cas, n, count, schedule, i);
    }
    DoneSums(s.threads, count, (n - 1) * count / (RETRIES + 1));
  }

  lemma Nonnegative(a: nat, b: nat)
    ensures a * b >= 0
  {
  }

  /** The program as it is run, ten threads of a hundred increments from 0, ends with 920 to 1000. */
  lemma TenTimesHundred(cas: nat, schedule: seq<nat>)
    requires Turns(10, schedule) && AllDone(Run(Start(0, cas, 10, 100), schedule))
    ensures 920 <= Run(Start(0, cas, 10, 100), schedule).number <= 1000
  {
    FinalNumber(0, cas, 10, 100, schedule);
  }

  // ---- when increments are abandoned ----

  lemma {:induction false} RunAppend(s: State, a: seq<nat>, b: seq<nat>)
    requires Turns(|s.threads|, a) && Turns(|s.threads|, b)
    ensures Turns(|s.threads|, a + b) && Run(s, a + b) == Run(Run(s, a), b)
    decreases |a|
  {
    if a == [] {
      assert a + b == b;
    } else {
      assert (a + b)[1..] == a[1..] + b;
      RunAppend(Step(s, a[0]), a[1..], b);
    }
  }

  lemma RunOneMore(s: State, schedule: seq<nat>, i: nat)
    requires Turns(|s.threads|, schedule) && i < |s.threads|
    ensures Turns(|s.threads|, schedule + [i]) && Run(s, schedule + [i]) == Step(Run(s, schedule), i)
  {
    RunAppend(s, schedule, [i]);
    assert [i][1..] == [];
    assert Run(Run(s, schedule), [i]) == Run(Step(Run(s, schedule), i), []);
  }

  /** A thread whose first m replaces have all failed. */
  function Outpaced(count: nat, m: nat): Thread
    requires m <= RETRIES + 1 && count > 0
  {
    if m <= RETRIES then Thread(count, Reading, RETRIES - m, 0, 0, m)
    else Thread(count - 1, Reading, RETRIES, 0, 1, RETRIES + 1)
  }

  /** Thread 0 has failed m times, and the others have stored m increments without a failure. */
  ghost predicate Duel(s: State, n: nat, count: nat, m: nat) {
    && 0 < n == |s.threads| && count > 0 && m <= RETRIES + 1 && s.threads[0] == Outpaced(count, m)
    && Stored(s.threads) == m
    && forall j | 1 <= j < n :: s.threads[j].phase.Reading? && s.threads[j].stored + s.threads[j].left == count
  }

  lemma {:induction false} AllStored(ts: seq<Thread>, count: nat)
    requires forall j | 0 <= j < |ts| :: ts[j].stored == count
    ensures Stored(ts) == |ts| * count
  {
    if ts == [] {
    } else {
      AllStored(ts[1..], count);
      MulNext(|ts| - 1, count);
    }
  }

  /** While the others have not stored everything, one of them has increments left. */
  lemma SomebodyLeft(s: State, n: nat, count: nat, m: nat) returns (j: nat)
    requires Duel(s, n, count, m) && m < (n - 1) * count
    ensures 1 <= j < n && s.threads[j].left > 0
  {
    if forall j | 1 <= j < n :: s.threads[j].left == 0 {
      forall j | 0 <= j < n - 1 ensures s.threads[1..][j].stored == count {
        assert s.threads[1..][j] == s.threads[j + 1];
      }
      AllStored(s.threads[1..], count);
      assert false;
    }
    j :| 1 <= j < n && s.threads[j].left > 0;
  }

  lemma DuelRound(s: State, n: nat, count: nat, m: nat, j: nat)
    requires Duel(s, n, count, m) && m <= RETRIES && 1 <= j < n && s.threads[j].left > 0
    ensures Duel(Step(Step(Step(Step(s, 0), j), j), 0), n, count, m + 1)
  {
    var s1 := Step(s, 0);
    var s2 := Step(s1, j);
    var s3 := Step(s2, j);
    StoredUpdate(s.threads, 0, s1.threads[0]);
    StoredUpdate(s1.threads, j, s2.threads[j]);
    StoredUpdate(s2.threads, j, s3.threads[j]);
    StoredUpdate(s3.threads, 0, Step(s3, 0).threads[0]);
  }

  lemma {:induction false} DuelRun(number: int, cas: nat, n: nat, count: nat, m: nat) returns (schedule: seq<nat>)
    requires n > 0 && count > 0 && m <= RETRIES + 1 && m <= (n - 1) * count
    ensures Turns(n, schedule) && Duel(Run(Start(number, cas, n, count), schedule), n, count, m)
  {
    schedule := [];
    var s0 := Start(number, cas, n, count);
    if m == 0 {
      StartStored(n, count);
    } else {
      schedule := DuelRun(number, cas, n, count, m - 1);
      var j := SomebodyLeft(Run(s0, schedule), n, count, m - 1);
      DuelRound(Run(s0, schedule), n, count, m - 1, j);
      RunOneMore(s0, schedule, 0);
      RunOneMore(s0, schedule + [0], j);
      RunOneMore(s0, schedule + [0] + [j], j);
      RunOneMore(s0, schedule + [0] + [j] + [j], 0);
      schedule := schedule + [0] + [j] + [j] + [0];
    }
  }

  ghost predicate SomethingAbandoned(s: State) { exists i :: 0 <= i < |s.threads| && s.threads[i].abandoned > 0 }

  /** An increment can be lost exactly when the other threads together make at least 101 of them. */
  lemma AbandonsIff(number: int, cas: nat, n: nat, count: nat)
    requires n > 0
    ensures (exists schedule ::
               Turns(n, schedule) && SomethingAbandoned(Run(Start(number, cas, n, count), schedule)))
       <==> (n - 1) * count >= RETRIES + 1
  {
    if (n - 1) * count >= RETRIES + 1 {
      if count == 0 {
        assert false;
      }
      var schedule := DuelRun(number, cas, n, count, RETRIES + 1);
      assert Run(Start(number, cas, n, count), schedule).threads[0].abandoned == 1;
    } else {
      Nonnegative(n - 1, count);
      forall schedule | Turns(n, schedule) ensures !SomethingAbandoned(Run(Start(number, cas, n, count), schedule)) {
        forall i: nat | i < n ensures Run(Start(number, cas, n, count), schedule).threads[i].abandoned == 0 {
          AbandonedBounded(number, cas, n, count, schedule, i);
        }
      }
    }
  }

  // ---- the code of one thread ----

  /** The document and all threads. Between two operations of a thread the others take any turns. */
  class Program {
    var state: State

    constructor (number: int, cas: nat, n: nat, count: nat)
      ensures state == Start(number, cas, n, count)
    {
      state := Start(number, cas, n, count);
    }

    method Put(me: nat, t: Thread)
      requires me < |state.threads|
      modifies this
      ensures state == old(state).(threads := old(state).threads[me := t])
    {
      state := state.(threads := state.threads[me := t]);
    }

    method GetAsync(me: nat) returns (number: int, cas: nat)
      requires me < |state.threads| && state.threads[me].phase.Reading? && state.threads[me].left > 0
      modifies this
      ensures state == Step(old(state), me) && number == old(state.number) && cas == old(state.cas)
    {
      number, cas := state.number, state.cas;
      Put(me, state.threads[me].(phase := Writing(number + 1, cas)));
    }

    /** Success, or the status KeyExists with the bookkeeping of the loop condition. */
    method ReplaceAsync(me: nat, number: int, cas: nat) returns (success: bool)
      requires me < |state.threads| && state.threads[me].phase == Writing(number, cas) && state.threads[me].left > 0
      modifies this
      ensures state == Step(old(state), me) && success == (cas == old(state.cas))
    {
      success := state.cas == cas;
      var t := state.threads[me];
      if success {
        state := state.(number := number, cas := state.cas + 1);
        Put(me, NextRound(t.(stored := t.stored + 1)));
      } else {
        Put(me, Mismatch(t));
      }
    }

    /** Other threads take these turns. */
    method Others(me: nat, turns: seq<nat>, ghost before: State, ghost schedule: seq<nat>)
      requires me < |state.threads| == |before.threads| && Turns(|state.threads|, turns) && me !in turns
      requires Turns(|before.threads|, schedule) && state == Run(before, schedule)
      modifies this
      ensures Turns(|before.threads|, schedule + turns) && state == Run(before, schedule + turns)
      ensures state.threads[me] == old(state.threads[me])
    {
      assert schedule + turns[..0] == schedule;
      for t := 0 to |turns|
        invariant Turns(|before.threads|, schedule + turns[..t]) && state == Run(before, schedule + turns[..t])
        invariant state.threads[me] == old(state.threads[me])
      {
        OneTurnMore(schedule, turns, t);
        assert turns[t] in turns;
        RunOneMore(before, schedule + turns[..t], turns[t]);
        state := Step(state, turns[t]);
      }
      assert turns[..|turns|] == turns;
    }

    /** UpdateNumberWithCas: before its k-th operation the others take the turns others(k). The two loops
        do what the steps of the thread do. */
    method UpdateNumberWithCas(me: nat, count: nat, others: nat -> seq<nat>) returns (ghost schedule: seq<nat>)
      requires me < |state.threads| && state.threads[me] == NewThread(count)
      requires forall k :: Turns(|state.threads|, others(k)) && me !in others(k)
      modifies this
      ensures Turns(|old(state).threads|, schedule) && state == Run(old(state), schedule) && state.threads[me].left == 0
    {
      ghost var before := state;
      var k := 0;
      schedule := [];
      for i := 0 to count
        invariant |state.threads| == |before.threads|
        invariant Turns(|before.threads|, schedule) && state == Run(before, schedule)
        invariant var t := state.threads[me]; t.left == count - i && t.phase.Reading? && t.retries == RETRIES
      {
        k, schedule := Increment(me, others, k, before, schedule);
      }
    }

    /** `var retries = 100; do { ... } while (... && retries-- > 0)` */
    method Increment(me: nat, others: nat -> seq<nat>, k0: nat, ghost before: State, ghost schedule0: seq<nat>)
      returns (k: nat, ghost schedule: seq<nat>)
      requires me < |state.threads| == |before.threads|
      requires forall k :: Turns(|state.threads|, others(k)) && me !in others(k)
      requires Turns(|before.threads|, schedule0) && state == Run(before, schedule0)
      requires var t := state.threads[me]; t.left > 0 && t.phase.Reading? && t.retries == RETRIES
      modifies this
      ensures Turns(|before.threads|, schedule) && state == Run(before, schedule) && |state.threads| == |before.threads|
      ensures var t := state.threads[me];
              t.left == old(state).threads[me].left - 1 && t.phase.Reading? && t.retries == RETRIES
    {
      ghost var left := state.threads[me].left;
      var retries, again := RETRIES, true;
      k, schedule := k0, schedule0;
      while again
        invariant Turns(|before.threads|, schedule) && state == Run(before, schedule)
        invariant |state.threads| == |before.threads|
        invariant state.threads[me].phase.Reading?
        invariant again ==> state.threads[me].left == left && state.threads[me].retries == retries >= 0
        invariant !again ==> state.threads[me].left == left - 1 && state.threads[me].retries == RETRIES
        decreases if again then retries + 1 else 0
      {
        var success;
        success, schedule := Attempt(me, others(k), others(k + 1), before, schedule);
        k := k + 2;
        again := !success && retries > 0;
        retries := retries - 1;
      }
    }

    /** Get, increment, replace. */
    method Attempt(me: nat, turns: seq<nat>, more: seq<nat>, ghost before: State, ghost schedule0: seq<nat>)
      returns (success: bool, ghost schedule: seq<nat>)
      requires me < |state.threads| == |before.threads| && state.threads[me].phase.Reading?
      requires state.threads[me].left > 0
      requires Turns(|state.threads|, turns) && me !in turns && Turns(|state.threads|, more) && me !in more
      requires Turns(|before.threads|, schedule0) && state == Run(before, schedule0)
      modifies this
      ensures Turns(|before.threads|, schedule) && state == Run(before, schedule) && |state.threads| == |before.threads|
      ensures var t := old(state.threads[me]);
              state.threads[me] == if success then NextRound(t.(stored := t.stored + 1)) else Mismatch(t)
    {
      Others(me, turns, before, schedule0);
      schedule := schedule0 + turns;
      var number, cas := GetAsync(me);
      RunOneMore(before, schedule, me);
      schedule := schedule + [me];
      Others(me, more, before, schedule);
      schedule := schedule + more;
      success := ReplaceAsync(me, number + 1, cas);
      RunOneMore(before, schedule, me);
      schedule := schedule + [me];
    }
  }
}
