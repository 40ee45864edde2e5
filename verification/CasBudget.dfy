/** add_to_couchbase_list of php/cas.php: create the list if it is missing, else append and replace with
    compare-and-swap, within a budget of retries. Several workers add one item each. */
module CasBudget {
  import opened Orders
  import opened Sequences

  /** $retries_remaining */
  const RETRIES := 10

  datatype Document = Absent | Present(list: seq<string>, cas: nat)

  /** Where a worker is: about to get, to insert a list of its own, or to replace the list it has computed;
      or it has returned true, or thrown. */
  datatype Phase = Getting | Inserting | Replacing(list: seq<string>, cas: nat) | Returned | Threw

  /** `budget` is $retries_remaining; the counters say how often an insert and a replace came too late. */
  datatype Worker = Worker(item: string, phase: Phase, budget: int, lost: nat, fails: nat)

  /** `version` is the CAS of the last mutation; every mutation gets a new one. */
  datatype State = State(doc: Document, version: nat, workers: seq<Worker>, order: seq<nat>)

  function Hired(items: seq<string>): (ws: seq<Worker>)
    ensures |ws| == |items| && forall i | 0 <= i < |items| :: ws[i] == Worker(items[i], Getting, RETRIES, 0, 0)
  {
    if items == [] then [] else [Worker(items[0], Getting, RETRIES, 0, 0)] + Hired(items[1..])
  }

  /** The workers start on this document. */
  function Start(doc: Document, items: seq<string>): State {
    State(doc, if doc.Present? then doc.cas else 0, Hired(items), [])
  }

  /** `while (--$retries_remaining)`, and the throw behind the loop. */
  function Retry(w: Worker): Worker {
    w.(budget := w.budget - 1, phase := if w.budget - 1 != 0 then Getting else Threw)
  }

  /** One atomic operation of worker i. */
  function Step(s: State, i: nat): State
    requires i < |s.workers|
  {
    var w := s.workers[i];
    match w.phase
    case Getting =>
      s.(workers := s.workers[i := w.(phase :=
        if s.doc.Present? then Replacing(s.doc.list + [w.item], s.doc.cas) else Inserting)])
    case Inserting =>
      if s.doc.Absent? then
        State(Present([w.item], s.version + 1), s.version + 1, s.workers[i := w.(phase := Returned)], s.order + [i])
      else
        s.(workers := s.workers[i := Retry(w.(budget := w.budget + 1, lost := w.lost + 1))])
    case Replacing(list, cas) =>
      if s.doc.Absent? then
        s.(workers := s.workers[i := w.(phase := Threw)])
      else if s.doc.cas == cas then
        State(Present(list, s.version + 1), s.version + 1, s.workers[i := w.(phase := Returned)], s.order + [i])
      else
        s.(workers := s.workers[i := Retry(w.(fails := w.fails + 1))])
    case _ => s
  }

  function Run(s: State, schedule: seq<nat>): (s': State)
    requires Turns(|s.workers|, schedule)
    ensures |s'.workers| == |s.workers|
    decreases |schedule|
  {
    if schedule == [] then s else Run(Step(s, schedule[0]), schedule[1..])
  }

  function ListOf(doc: Document): seq<string> { if doc.Present? then doc.list else [] }

  /** The success that creates the list spoils nobody's replace. */
  function Created(doc: Document): nat { if doc.Present? then 0 else 1 }

  ghost predicate WorkerOk(doc: Document, s: State, i: nat)
    requires i < |s.workers|
  {
    var w, v0 := s.workers[i], if doc.Present? then doc.cas else 0;
    && (w.phase.Returned? <==> i in s.order)
    && w.lost <= 1 && (w.lost == 1 ==> doc.Absent? && s.doc.Present?)
    && (w.phase.Inserting? ==> doc.Absent? && w.lost == 0 && w.fails == 0)
    && (w.phase.Threw? <==> w.fails >= RETRIES)
    && (!w.phase.Returned? ==> w.budget == RETRIES - w.fails && w.fails <= RETRIES)
    && (w.fails > 0 && !w.phase.Returned? ==> w.fails + Created(doc) <= |s.order|)
    && (w.phase.Replacing? ==>
          && s.doc.Present? && v0 + Created(doc) + w.fails <= w.phase.cas <= s.version
          && (w.phase.cas == s.version ==> w.phase.list == s.doc.list + [w.item]))
  }

  /** What holds in every state: the list is the initial list and the items of the workers that have
      returned, in the order of their successes. */
  ghost predicate Inv(doc: Document, items: seq<string>, s: State) {
    && |s.workers| == |items| && (forall i | 0 <= i < |items| :: s.workers[i].item == items[i])
    && (forall k | 0 <= k < |s.order| :: s.order[k] < |items|) && NoDuplicates(s.order)
    && ListOf(s.doc) == ListOf(doc) + ItemsOf(items, s.order)
    && s.version == (if doc.Present? then doc.cas else 0) + |s.order|
    && (s.doc.Present? ==> s.doc.cas == s.version) && (s.doc.Present? <==> doc.Present? || s.order != [])
    && forall i: nat | i < |items| :: WorkerOk(doc, s, i)
  }

  /** The new list: a worker's item behind the old one. */
  lemma SuccessAppends(doc: Document, items: seq<string>, s: State, i: nat)
    requires Inv(doc, items, s) && i < |s.workers| && Step(s, i).order == s.order + [i]
    ensures ListOf(Step(s, i).doc) == ListOf(doc) + ItemsOf(items, s.order + [i])
  {
    assert WorkerOk(doc, s, i);
    ItemsAppend(items, s.order, i);
  }

  /** An insert or a replace that succeeds. */
  lemma SuccessKeepsInv(doc: Document, items: seq<string>, s: State, i: nat)
    requires Inv(doc, items, s) && i < |s.workers| && Step(s, i).order == s.order + [i]
    ensures Inv(doc, items, Step(s, i))
  {
    var s' := Step(s, i);
    assert WorkerOk(doc, s, i) && i !in s.order;
    SuccessAppends(doc, items, s, i);
    forall j: nat | j < |items| ensures WorkerOk(doc, s', j) {
      assert WorkerOk(doc, s, j);
    }
  }

  lemma OtherKeepsInv(doc: Document, items: seq<string>, s: State, i: nat)
    requires Inv(doc, items, s) && i < |s.workers| && Step(s, i).order == s.order
    ensures Inv(doc, items, Step(s, i))
  {
    var s' := Step(s, i);
    assert WorkerOk(doc, s, i);
    forall j: nat | j < |items| ensures WorkerOk(doc, s', j) {
      assert WorkerOk(doc, s, j);
    }
  }

  lemma StepKeepsInv(doc: Document, items: seq<string>, s: State, i: nat)
    requires Inv(doc, items, s) && i < |s.workers|
    ensures Inv(doc, items, Step(s, i))
  {
    if Step(s, i).order == s.order {
      OtherKeepsInv(doc, items, s, i);
    } else {
      SuccessKeepsInv(doc, items, s, i);
    }
  }

  lemma {:induction false} RunKeepsInv(doc: Document, items: seq<string>, s: State, schedule: seq<nat>)
    requires Inv(doc, items, s) && Turns(|items|, schedule)
    ensures Inv(doc, items, Run(s, schedule))
    decreases |schedule|
  {
    if schedule == [] {
    } else {
      StepKeepsInv(doc, items, s, schedule[0]);
      RunKeepsInv(doc, items, Step(s, schedule[0]), schedule[1..]);
    }
  }

  /** In every state of every run. */
  lemma Always(doc: Document, items: seq<string>, schedule: seq<nat>)
    requires Turns(|items|, schedule)
    ensures Inv(doc, items, Run(Start(doc, items), schedule))
  {
    RunKeepsInv(doc, items, Start(doc, items), schedule);
  }

  // ---- what the return value means ----

  function Count(list: seq<string>, item: string): nat { multiset(list)[item] }

  lemma {:induction false} CountItems(items: seq<string>, order: seq<nat>, i: nat)
    requires NoDuplicates(order) && (forall k | 0 <= k < |order| :: order[k] < |items|) && i < |items|
    requires forall j: nat | j < |items| && j != i :: items[j] != items[i]
    ensures Count(ItemsOf(items, order), items[i]) == if i in order then 1 else 0
    decreases |order|
  {
    if order == [] {
    } else {
      forall j, k | 0 <= j < k < |order| - 1 ensures order[1..][j] != order[1..][k] {
        assert order[j + 1] != order[k + 1];
      }
      CountItems(items, order[1..], i);
      assert order == [order[0]] + order[1..];
      if order[0] == i {
        forall k | 0 <= k < |order| - 1 ensures order[1..][k] != i {
          assert order[0] != order[k + 1];
        }
      }
    }
  }

  /** A worker returns true exactly when its item has been added, and then it is in the list once; a
      worker that throws has added nothing. */
  lemma ReturnsTrueIffAdded(doc: Document, items: seq<string>, schedule: seq<nat>, i: nat)
    requires Turns(|items|, schedule) && i < |items|
    requires (forall j: nat | j < |items| && j != i :: items[j] != items[i]) && items[i] !in ListOf(doc)
    ensures var s := Run(Start(doc, items), schedule);
            Count(ListOf(s.doc), items[i]) == if s.workers[i].phase.Returned? then 1 else 0
  {
    var s := Run(Start(doc, items), schedule);
    Always(doc, items, schedule);
    assert WorkerOk(doc, s, i);
    CountItems(items, s.order, i);
    assert Count(ListOf(s.doc), items[i]) == Count(ListOf(doc), items[i]) + Count(ItemsOf(items, s.order), items[i]);
  }

  /** A lost insert happens at most once per worker, only if the list was missing, and costs no budget. */
  lemma LostInsertIsFree(doc: Document, items: seq<string>, schedule: seq<nat>, i: nat)
    requires Turns(|items|, schedule) && i < |items|
    ensures var w := Run(Start(doc, items), schedule).workers[i];
            && w.lost <= 1 && (doc.Present? ==> w.lost == 0)
            && (!w.phase.Returned? ==> w.budget + w.fails == RETRIES)
  {
    Always(doc, items, schedule);
    assert WorkerOk(doc, Run(Start(doc, items), schedule), i);
  }

  // ---- when a worker gives up ----

  ghost predicate SomeoneThrew(s: State) { exists i :: 0 <= i < |s.workers| && s.workers[i].phase.Threw? }

  /** Too few workers to exhaust anybody's budget. */
  lemma NobodyThrows(doc: Document, items: seq<string>, schedule: seq<nat>)
    requires Turns(|items|, schedule) && |items| <= RETRIES + Created(doc)
    ensures !SomeoneThrew(Run(Start(doc, items), schedule))
  {
    var s := Run(Start(doc, items), schedule);
    Always(doc, items, schedule);
    if SomeoneThrew(s) {
      var i: nat :| i < |s.workers| && s.workers[i].phase.Threw?;
      assert WorkerOk(doc, s, i);
      Missing(s.order, |items|, i);
      assert false;
    }
  }

  lemma {:induction false} RunAppend(s: State, a: seq<nat>, b: seq<nat>)
    requires Turns(|s.workers|, a) && Turns(|s.workers|, b)
    ensures Turns(|s.workers|, a + b) && Run(s, a + b) == Run(Run(s, a), b)
    decreases |a|
  {
    if a == [] {
      assert a + b == b;
    } else {
      assert (a + b)[1..] == a[1..] + b;
      RunAppend(Step(s, a[0]), a[1..], b);
    }
  }

  lemma RunOneMore(s: State, schedule: seq<nat>, i: nat)
    requires Turns(|s.workers|, schedule) && i < |s.workers|
    ensures Turns(|s.workers|, schedule + [i]) && Run(s, schedule + [i]) == Step(Run(s, schedule), i)
  {
    RunAppend(s, schedule, [i]);
    assert [i][1..] == [];
    assert Run(Run(s, schedule), [i]) == Run(Step(Run(s, schedule), i), []);
  }

  /** If the list is missing, worker 11 creates it first. In each of m rounds worker 0 gets, another
      worker adds its item, and worker 0's replace comes too late. */
  function Outpaced(doc: Document, m: nat): seq<nat> {
    if m == 0 then (if doc.Present? then [] else [11] + [11]) else Outpaced(doc, m - 1) + [0] + [m] + [m] + [0]
  }

  /** A worker all of whose replaces have failed, m in number. */
  function Retried(item: string, m: nat): Worker {
    Worker(item, if m == RETRIES then Threw else Getting, RETRIES - m, 0, m)
  }

  /** Worker 0 has failed m times, and the workers behind number m have not started. */
  ghost predicate Duel(s: State, items: seq<string>, m: nat) {
    && |s.workers| == |items| > RETRIES && m <= RETRIES && s.doc.Present? && s.doc.cas == s.version
    && s.workers[0] == Retried(items[0], m)
    && forall j | m < j <= RETRIES :: s.workers[j] == Worker(items[j], Getting, RETRIES, 0, 0)
  }

  lemma DuelRound(s: State, items: seq<string>, m: nat)
    requires m > 0 && Duel(s, items, m - 1) && m <= RETRIES
    ensures Duel(Step(Step(Step(Step(s, 0), m), m), 0), items, m)
  {
    var s1 := Step(s, 0);
    var s2 := Step(s1, m);
    assert s2.workers[m].phase.Replacing? && s2.workers[m].phase.cas == s2.doc.cas;
    var s3 := Step(s2, m);
    assert s3.version == s.version + 1 && s3.workers[0] == s1.workers[0];
  }

  lemma {:induction false} OutpacedRun(doc: Document, items: seq<string>, m: nat)
    requires m <= RETRIES && |items| >= RETRIES + 1 + Created(doc)
    ensures Turns(|items|, Outpaced(doc, m)) && Duel(Run(Start(doc, items), Outpaced(doc, m)), items, m)
  {
    var s0 := Start(doc, items);
    if m > 0 {
      OutpacedRun(doc, items, m - 1);
      var o := Outpaced(doc, m - 1);
      DuelRound(Run(s0, o), items, m);
      RunOneMore(s0, o, 0);
      RunOneMore(s0, o + [0], m);
      RunOneMore(s0, o + [0] + [m], m);
      RunOneMore(s0, o + [0] + [m] + [m], 0);
    } else if doc.Absent? {
      RunOneMore(s0, [], 11);
      RunOneMore(s0, [11], 11);
      assert [] + [11] == [11];
    }
  }

  /** The throw behind the loop can be reached exactly when there are 11 workers on a list that is there,
      or 12 on one that is not: the worker that creates the list spoils nobody's replace. */
  lemma ThrowsIff(doc: Document, items: seq<string>)
    ensures (exists schedule ::
               Turns(|items|, schedule) && SomeoneThrew(Run(Start(doc, items), schedule)))
       <==> |items| >= RETRIES + 1 + Created(doc)
  {
    if |items| >= RETRIES + 1 + Created(doc) {
      OutpacedRun(doc, items, RETRIES);
      assert Run(Start(doc, items), Outpaced(doc, RETRIES)).workers[0].phase.Threw?;
    } else {
      forall schedule | Turns(|items|, schedule) ensures !SomeoneThrew(Run(Start(doc, items), schedule)) {
        NobodyThrows(doc, items, schedule);
      }
    }
  }

  // ---- the code of one worker ----

  /** The document and all workers. Between two operations of a worker the others take any turns. */
  class Program {
    var state: State

    constructor (doc: Document, items: seq<string>)
      ensures state == Start(doc, items)
    {
      state := Start(doc, items);
    }

    method Put(me: nat, w: Worker)
      requires me < |state.workers|
      modifies this
      ensures state == old(state).(workers := old(state).workers[me := w])
    {
      state := state.(workers := state.workers[me := w]);
    }

    /** `$bkt->get($docid)`; no document is the ENOENT exception. */
    method Get(me: nat) returns (doc: Document)
      requires me < |state.workers| && state.workers[me].phase.Getting?
      modifies this
      ensures state == Step(old(state), me) && doc == old(state.doc)
    {
      doc := state.doc;
      var w := state.workers[me];
      Put(me, w.(phase := if doc.Present? then Replacing(doc.list + [w.item], doc.cas) else Inserting));
    }

    /** `$bkt->insert($docid, array($newval))`; false is the EEXISTS exception, with the bookkeeping of its handler. */
    method Insert(me: nat) returns (ok: bool)
      requires me < |state.workers| && state.workers[me].phase.Inserting?
      modifies this
      ensures state == Step(old(state), me) && ok == old(state.doc.Absent?)
    {
      ok := state.doc.Absent?;
      var w := state.workers[me];
      if ok {
        state := State(Present([w.item], state.version + 1), state.version + 1, state.workers, state.order + [me]);
        Put(me, w.(phase := Returned));
      } else {
        Put(me, Retry(w.(budget := w.budget + 1, lost := w.lost + 1)));
      }
    }

    /** `$bkt->replace($docid, $doc, array("cas" => $metadoc->cas))`; false is the EEXISTS exception. */
    method Replace(me: nat, list: seq<string>, cas: nat) returns (ok: bool)
      requires me < |state.workers| && state.workers[me].phase == Replacing(list, cas) && state.doc.Present?
      modifies this
      ensures state == Step(old(state), me) && ok == (cas == old(state.doc.cas))
    {
      ok := state.doc.cas == cas;
      var w := state.workers[me];
      if ok {
        state := State(Present(list, state.version + 1), state.version + 1, state.workers, state.order + [me]);
        Put(me, w.(phase := Returned));
      } else {
        Put(me, Retry(w.(fails := w.fails + 1)));
      }
    }

    /** Other workers take these turns. */
    method Others(me: nat, turns: seq<nat>, ghost before: State, ghost schedule: seq<nat>)
      requires me < |state.workers| == |before.workers| && Turns(|state.workers|, turns) && me !in turns
      requires Turns(|before.workers|, schedule) && state == Run(before, schedule)
      modifies this
      ensures Turns(|before.workers|, schedule + turns) && state == Run(before, schedule + turns)
      ensures state.workers[me] == old(state.workers[me])
    {
      assert schedule + turns[..0] == schedule;
      for t := 0 to |turns|
        invariant Turns(|before.workers|, schedule + turns[..t]) && state == Run(before, schedule + turns[..t])
        invariant state.workers[me] == old(state.workers[me])
      {
        OneTurnMore(schedule, turns, t);
        assert turns[t] in turns;
        RunOneMore(before, schedule + turns[..t], turns[t]);
        state := Step(state, turns[t]);
      }
      assert turns[..|turns|] == turns;
    }

    /** add_to_couchbase_list: before its k-th operation the others take the turns others(k). The result is
        the return value, false standing for the throw; the code does what the steps of the worker do. */
    method AddToCouchbaseList(me: nat, others: nat -> seq<nat>, ghost doc0: Document, ghost items: seq<string>)
      returns (result: bool, ghost schedule: seq<nat>)
      requires Inv(doc0, items, state) && me < |items| && state.workers[me] == Worker(items[me], Getting, RETRIES, 0, 0)
      requires forall k :: Turns(|items|, others(k)) && me !in others(k)
      modifies this
      ensures Turns(|items|, schedule) && state == Run(old(state), schedule) && Inv(doc0, items, state)
      ensures state.workers[me].phase == if result then Returned else Threw
    {
      ghost var before := state;
      var retries_remaining, k := RETRIES, 0;
      schedule := [];
      result := false;
      while retries_remaining != 0
        invariant Turns(|items|, schedule) && state == Run(before, schedule) && Inv(doc0, items, state)
        invariant state.workers[me].item == items[me] && state.workers[me].budget == retries_remaining >= 0
        invariant state.workers[me].phase == if retries_remaining == 0 then Threw else Getting
        invariant !result
        decreases 2 * retries_remaining - state.workers[me].lost
      {
        var charged;
        result, charged, schedule := Attempt(me, others, k, doc0, items, before, schedule);
        if result {
          return;
        }
        k := k + 2;
        retries_remaining := if charged then retries_remaining - 1 else retries_remaining + 1 - 1;
      }
    }

    /** One turn of the loop; `charged` says whether it costs a retry. */
    method Attempt(me: nat, others: nat -> seq<nat>, k: nat, ghost doc0: Document, ghost items: seq<string>,
                   ghost before: State, ghost schedule0: seq<nat>)
      returns (result: bool, charged: bool, ghost schedule: seq<nat>)
      requires Inv(doc0, items, state) && me < |items| == |before.workers| && state.workers[me].item == items[me]
      requires state.workers[me].phase.Getting? && forall k :: Turns(|items|, others(k)) && me !in others(k)
      requires Turns(|items|, schedule0) && state == Run(before, schedule0) && Inv(doc0, items, before)
      modifies this
      ensures Turns(|items|, schedule) && state == Run(before, schedule) && Inv(doc0, items, state)
      ensures result ==> state.workers[me].phase.Returned?
      ensures !result ==>
                var w := old(state.workers[me]);
                && state.workers[me].lost <= 1
                && state.workers[me] == if charged then Retry(w.(fails := w.fails + 1))
                                        else Retry(w.(budget := w.budget + 1, lost := w.lost + 1))
    {
      Others(me, others(k), before, schedule0);
      schedule := schedule0 + others(k);
      var metadoc := Get(me);
      RunOneMore(before, schedule, me);
      schedule := schedule + [me];
      Others(me, others(k + 1), before, schedule);
      schedule := schedule + others(k + 1);
      RunKeepsInv(doc0, items, before, schedule);
      assert WorkerOk(doc0, state, me);
      if metadoc.Absent? {
        result := Insert(me);
        charged := false;
      } else {
        result := Replace(me, metadoc.list + [state.workers[me].item], metadoc.cas);
        charged := true;
      }
      RunOneMore(before, schedule, me);
      schedule := schedule + [me];
      RunKeepsInv(doc0, items, before, schedule);
      assert WorkerOk(doc0, state, me);
    }
  }
}
