/** UpdateNumberWithoutCas of dotnet/Cas.cs: threads that increment a shared number without
    compare-and-swap. Increments get lost; how many, the schedule decides. */
module PlainCounter {
  import opened Orders

  datatype Phase = Reading | Writing(number: int)

  /** `left` increments are still to be done, `written` have been stored. */
  datatype Thread = Thread(left: nat, phase: Phase, written: nat)

  datatype Writer = Nobody | Last(i: nat)

  /** The document, the threads, and who wrote last. */
  datatype State = State(number: int, threads: seq<Thread>, writer: Writer)

  function Started(n: nat, count: nat): (ts: seq<Thread>)
    ensures |ts| == n && forall i | 0 <= i < n :: ts[i] == Thread(count, Reading, 0)
  {
    if n == 0 then [] else [Thread(count, Reading, 0)] + Started(n - 1, count)
  }

  function Start(number: int, n: nat, count: nat): State { State(number, Started(n, count), Nobody) }

  /** One atomic operation of thread i: get, or replace whatever is there. */
  function Step(s: State, i: nat): State
    requires i < |s.threads|
  {
    var t := s.threads[i];
    if t.left == 0 then s else
    match t.phase
    case Reading => s.(threads := s.threads[i := t.(phase := Writing(s.number + 1))])
    case Writing(number) => State(number, s.threads[i := Thread(t.left - 1, Reading, t.written + 1)], Last(i))
  }

  function Run(s: State, schedule: seq<nat>): (s': State)
    requires Turns(|s.threads|, schedule)
    ensures |s'.threads| == |s.threads|
    decreases |schedule|
  {
    if schedule == [] then s else Run(Step(s, schedule[0]), schedule[1..])
  }

  function Written(ts: seq<Thread>): nat { if ts == [] then 0 else ts[0].written + Written(ts[1..]) }

  lemma {:induction false} WrittenUpdate(ts: seq<Thread>, i: nat, t: Thread)
    requires i < |ts|
    ensures Written(ts[i := t]) == Written(ts) - ts[i].written + t.written
  {
    if i > 0 {
      assert ts[i := t][1..] == ts[1..][i - 1 := t];
      WrittenUpdate(ts[1..], i - 1, t);
    } else {
      assert ts[i := t][1..] == ts[1..];
    }
  }

  /** A thread that has written before reads at least 1 and is about to write at least 2 more than at first. */
  ghost predicate ThreadOk(s: State, number0: int, count: nat, i: nat)
    requires i < |s.threads|
  {
    var t := s.threads[i];
    && t.written + t.left == count && (t.written > 0 ==> s.writer.Last?)
    && (t.phase.Writing? ==>
          number0 + (if t.written > 0 then 2 else 1) <= t.phase.number <= number0 + Written(s.threads) + 1)
  }

  ghost predicate Inv(number0: int, n: nat, count: nat, s: State) {
    && |s.threads| == n && number0 <= s.number <= number0 + Written(s.threads)
    && (s.writer.Last? ==> s.writer.i < n && s.number >= number0 + if s.threads[s.writer.i].written >= 2 then 2 else 1)
    && forall i: nat | i < n :: ThreadOk(s, number0, count, i)
  }

  lemma StepKeepsInv(number0: int, n: nat, count: nat, s: State, i: nat)
    requires Inv(number0, n, count, s) && i < n
    ensures Inv(number0, n, count, Step(s, i))
  {
    var s' := Step(s, i);
    assert ThreadOk(s, number0, count, i);
    WrittenUpdate(s.threads, i, s'.threads[i]);
    assert s.threads[i := s.threads[i]] == s.threads;
    forall j: nat | j < n ensures ThreadOk(s', number0, count, j) {
      assert ThreadOk(s, number0, count, j);
    }
  }

  lemma {:induction false} RunKeepsInv(number0: int, n: nat, count: nat, s: State, schedule: seq<nat>)
    requires Inv(number0, n, count, s) && Turns(n, schedule)
    ensures Inv(number0, n, count, Run(s, schedule))
    decreases |schedule|
  {
    if schedule == [] {
    } else {
      StepKeepsInv(number0, n, count, s, schedule[0]);
      RunKeepsInv(number0, n, count, Step(s, schedule[0]), schedule[1..]);
    }
  }

  ghost predicate AllDone(s: State) { forall i | 0 <= i < |s.threads| :: s.threads[i].left == 0 }

  lemma {:induction false} StartWritten(n: nat, count: nat)
    ensures Written(Started(n, count)) == 0
  {
    if n == 0 {
    } else {
      StartWritten(n - 1, count);
    }
  }

  lemma {:induction false} DoneWritten(ts: seq<Thread>, count: nat)
    requires forall i | 0 <= i < |ts| :: ts[i].written == count
    ensures Written(ts) == |ts| * count
  {
    if ts == [] {
    } else {
      DoneWritten(ts[1..], count);
      MulNext(|ts| - 1, count);
    }
  }

  /** However the operations interleave, the number has grown by 2 at least and by n * count at most. */
  lemma FinalNumber(number: int, n: nat, count: nat, schedule: seq<nat>)
    requires n > 0 && count >= 2 && Turns(n, schedule) && AllDone(Run(Start(number, n, count), schedule))
    ensures number + 2 <= Run(Start(number, n, count), schedule).number <= number + n * count
  {
    var s := Run(Start(number, n, count), schedule);
    StartWritten(n, count);
    RunKeepsInv(number, n, count, Start(number, n, count), schedule);
    forall i: nat | i < n ensures s.threads[i].written == count {
      assert ThreadOk(s, number, count, i);
    }
    DoneWritten(s.threads, count);
    assert s.threads[0].written > 0 && ThreadOk(s, number, count, 0);
  }

  // ---- both bounds are met ----

  lemma {:induction false} RunAppend(s: State, a: seq<nat>, b: seq<nat>)
    requires Turns(|s.threads|, a) && Turns(|s.threads|, b)
    ensures Turns(|s.threads|, a + b) && Run(s, a + b) == Run(Run(s, a), b)
    decreases |a|
  {
    if a == [] {
      assert a + b == b;
    } else {
      assert (a + b)[1..] == a[1..] + b;
      RunAppend(Step(s, a[0]), a[1..], b);
    }
  }

  lemma RunOneMore(s: State, schedule: seq<nat>, i: nat)
    requires Turns(|s.threads|, schedule) && i < |s.threads|
    ensures Turns(|s.threads|, schedule + [i]) && Run(s, schedule + [i]) == Step(Run(s, schedule), i)
  {
    RunAppend(s, schedule, [i]);
    assert [i][1..] == [];
    assert Run(Run(s, schedule), [i]) == Run(Step(Run(s, schedule), i), []);
  }

  /** From s to t only thread i has moved, by k whole increments. */
  ghost predicate Alone(s: State, t: State, i: nat, k: nat) {
    && i < |s.threads| == |t.threads| && s.threads[i].phase.Reading? && t.threads[i].phase.Reading?
    && t.number == s.number + k && t.threads[i].left + k == s.threads[i].left
    && forall j | 0 <= j < |s.threads| && j != i :: t.threads[j] == s.threads[j]
  }

  /** Thread i makes k increments without interruption. */
  lemma {:induction false} Solo(s0: State, before: seq<nat>, i: nat, k: nat) returns (schedule: seq<nat>)
    requires Turns(|s0.threads|, before) && i < |s0.threads|
    requires var t := Run(s0, before).threads[i]; t.phase.Reading? && k <= t.left
    ensures Turns(|s0.threads|, schedule) && Alone(Run(s0, before), Run(s0, schedule), i, k)
    decreases k
  {
    schedule := before;
    if k > 0 {
      schedule := Solo(s0, before, i, k - 1);
      RunOneMore(s0, schedule, i);
      RunOneMore(s0, schedule + [i], i);
      schedule := schedule + [i] + [i];
    }
  }

  /** From s to t the threads from m on have done all their increments one after the other. */
  ghost predicate Drained(s: State, t: State, m: nat, count: nat) {
    && |t.threads| == |s.threads| && m <= |s.threads| && t.number == s.number + (|s.threads| - m) * count
    && (forall j | 0 <= j < m :: t.threads[j] == s.threads[j])
    && (forall j | m <= j < |s.threads| :: t.threads[j].left == 0)
  }

  lemma {:induction false} Drain(s0: State, before: seq<nat>, m: nat, count: nat) returns (schedule: seq<nat>)
    requires Turns(|s0.threads|, before) && m <= |s0.threads|
    requires forall j | m <= j < |s0.threads| ::
               Run(s0, before).threads[j].phase.Reading? && Run(s0, before).threads[j].left == count
    ensures Turns(|s0.threads|, schedule) && Drained(Run(s0, before), Run(s0, schedule), m, count)
    decreases |s0.threads| - m
  {
    schedule := before;
    if m < |s0.threads| {
      schedule := Solo(s0, before, m, count);
      schedule := Drain(s0, schedule, m + 1, count);
      MulNext(|s0.threads| - m - 1, count);
    }
  }

  /** One thread after the other: nothing is lost. */
  lemma MostReached(number: int, n: nat, count: nat)
    ensures exists schedule ::
              Turns(n, schedule) && AllDone(Run(Start(number, n, count), schedule))
              && Run(Start(number, n, count), schedule).number == number + n * count
  {
    var s0 := Start(number, n, count);
    assert Run(s0, []) == s0;
    var schedule := Drain(s0, [], 0, count);
  }

  /** Thread 0 gets first and replaces when all others are done but for the last increment of thread 1;
      that one starts from it and replaces last of all. */
  lemma LeastReached(number: int, n: nat, count: nat)
    requires n >= 2 && count >= 2
    ensures exists schedule ::
              Turns(n, schedule) && AllDone(Run(Start(number, n, count), schedule))
              && Run(Start(number, n, count), schedule).number == number + 2
  {
    var s0 := Start(number, n, count);
    assert Run(s0, []) == s0;
    RunOneMore(s0, [], 0);
    var a := Drain(s0, [] + [0], 2, count);
    var b := Solo(s0, a, 1, count - 1);
    RunOneMore(s0, b, 0);
    RunOneMore(s0, b + [0], 1);
    var c := Solo(s0, b + [0] + [1], 0, count - 1);
    RunOneMore(s0, c, 1);
    var s := Run(s0, c + [1]);
    assert s.number == number + 2;
    assert AllDone(s);
  }
}
