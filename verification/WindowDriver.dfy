/** The windowed loops of nodejs/bulkES6.js: a number of lanes keep operations on consecutive keys in
    flight; every callback that brings a result starts the next operation or resolves the promise. */
module WindowDriver {
  import opened Sequences

  /** A promise is settled by the first call of resolve() or reject(); later calls do nothing. */
  datatype Settled = Pending | Fulfilled | Rejected

  /** `completed` and `runFlag`; the keys recorded (in `getMultiArray` by preload; for the other two loops, the
      keys they have used); the operations in flight and all issued so far, by the number in their key; how
      often resolve() was called and a callback brought an error; and the promise. */
  datatype State = State(completed: nat, runFlag: bool, recorded: map<nat, nat>, inflight: seq<nat>, issued: seq<nat>,
                         resolves: nat, errors: nat, settled: Settled)

  const EMPTY := State(0, false, map[], [], [], 0, 0, Pending)

  /** upsertOne, getOne, modifyOne */
  function One(s: State, total: nat): State {
    if s.completed >= total && !s.runFlag then
      s.(runFlag := true, resolves := s.resolves + 1, settled := if s.settled.Pending? then Fulfilled else s.settled)
    else if s.completed <= total then
      s.(recorded := s.recorded[s.completed := s.completed], inflight := s.inflight + [s.completed],
         issued := s.issued + [s.completed])
    else s
  }

  /** The loop that fills the window. No callback runs before it is through. */
  function Launch(lanes: nat, total: nat): State { if lanes == 0 then EMPTY else One(Launch(lanes - 1, total), total) }

  /** The callback of the j-th operation in flight, with a result or with an error; nothing if there is none. */
  datatype Event = Event(j: nat, ok: bool)

  /** In the preload loop an error rejects the promise; the other two loops only print it. */
  datatype Loop = Preload | Quiet

  function Callback(loop: Loop, s: State, total: nat, e: Event): State {
    if e.j >= |s.inflight| then s else
    var t := s.(inflight := Without(s.inflight, e.j));
    if e.ok then One(t.(completed := t.completed + 1), total)
    else t.(errors := t.errors + 1, settled := if loop.Preload? && t.settled.Pending? then Rejected else t.settled)
  }

  function Run(loop: Loop, s: State, total: nat, events: seq<Event>): State
    decreases |events|
  {
    if events == [] then s else Run(loop, Callback(loop, s, total, events[0]), total, events[1..])
  }

  /** Key 0 once per lane, then the keys 1 to k once each. */
  function Issued(lanes: nat, k: nat): seq<nat> { if k == 0 then seq(lanes, _ => 0) else Issued(lanes, k - 1) + [k] }

  function Min(a: int, b: int): int { if a <= b then a else b }

  /** What holds in every state behind the launch: until the promise is resolved every lane is in flight
      or has ended with an error; the last result needed resolves it and ends its lane, as all later
      results end theirs. */
  ghost predicate Inv(loop: Loop, lanes: nat, total: nat, s: State) {
    && total >= 1 && s.resolves == (if s.completed >= total then 1 else 0) && (s.runFlag <==> s.completed >= total)
    && |s.inflight| + s.errors == lanes - (if s.completed >= total then s.completed - total + 1 else 0)
    && s.issued == Issued(lanes, Min(s.completed, total - 1))
    && (forall k :: k in s.recorded <==> 0 <= k <= Min(s.completed, total - 1))
    && (forall k <- s.recorded :: s.recorded[k] == k)
    && (loop.Quiet? ==> s.settled == if s.completed >= total then Fulfilled else Pending)
    && (loop.Preload? ==> (s.settled.Pending? <==> s.completed < total && s.errors == 0))
  }

  lemma {:induction false} LaunchState(lanes: nat, total: nat)
    requires total >= 1
    ensures Launch(lanes, total) ==
            State(0, false, if lanes == 0 then map[] else map[0 := 0], seq(lanes, _ => 0), seq(lanes, _ => 0),
                  0, 0, Pending)
  {
    if lanes == 0 {
    } else {
      LaunchState(lanes - 1, total);
      assert seq<nat>(lanes, _ => 0) == seq<nat>(lanes - 1, _ => 0) + [0];
    }
  }

  lemma LaunchInv(loop: Loop, lanes: nat, total: nat)
    requires lanes >= 1 && total >= 1
    ensures Inv(loop, lanes, total, Launch(lanes, total))
  {
    LaunchState(lanes, total);
  }

  lemma CallbackKeepsInv(loop: Loop, lanes: nat, total: nat, s: State, e: Event)
    requires Inv(loop, lanes, total, s)
    ensures Inv(loop, lanes, total, Callback(loop, s, total, e))
  {
  }

  lemma {:induction false} RunKeepsInv(loop: Loop, lanes: nat, total: nat, s: State, events: seq<Event>)
    requires Inv(loop, lanes, total, s)
    ensures Inv(loop, lanes, total, Run(loop, s, total, events))
    decreases |events|
  {
    if events == [] {
    } else {
      CallbackKeepsInv(loop, lanes, total, s, events[0]);
      RunKeepsInv(loop, lanes, total, Callback(loop, s, total, events[0]), events[1..]);
    }
  }

  /** Every state of every run: resolve() is called at most once, at the callback that completes the last
      document, when exactly one lane has ended without an error; never more than `lanes` operations are
      in flight; the keys recorded are 0 to total - 1 without gaps when resolve() is called. */
  lemma Driver(loop: Loop, lanes: nat, total: nat, events: seq<Event>)
    requires lanes >= 1 && total >= 1
    ensures var s := Run(loop, Launch(lanes, total), total, events);
            && Inv(loop, lanes, total, s) && |s.inflight| <= lanes && s.resolves <= 1
            && (s.resolves == 1 <==> s.completed >= total)
            && (s.completed == total ==> |s.inflight| == lanes - 1 - s.errors)
            && (s.resolves == 1 ==> forall k :: k in s.recorded <==> 0 <= k < total)
  {
    LaunchInv(loop, lanes, total);
    RunKeepsInv(loop, lanes, total, Launch(lanes, total), events);
  }

  /** In the loops that only print errors: when nothing is in flight any more, the promise has been fulfilled
      unless every lane ended with an error; then it stays pending. */
  lemma ResolvedUnlessAllFailed(lanes: nat, total: nat, events: seq<Event>)
    requires lanes >= 1 && total >= 1 && Run(Quiet, Launch(lanes, total), total, events).inflight == []
    ensures var s := Run(Quiet, Launch(lanes, total), total, events);
            && s.settled == (if s.errors < lanes then Fulfilled else Pending)
            && (s.errors < lanes ==> s.completed == total + lanes - 1 - s.errors)
  {
    Driver(Quiet, lanes, total, events);
  }

  // ---- the preload loop ----

  /** Once settled, a promise stays as it is. */
  lemma {:induction false} StaysSettled(loop: Loop, s: State, total: nat, events: seq<Event>)
    requires !s.settled.Pending?
    ensures Run(loop, s, total, events).settled == s.settled
    decreases |events|
  {
    if events == [] {
    } else {
      StaysSettled(loop, Callback(loop, s, total, events[0]), total, events[1..]);
    }
  }

  /** The first n callbacks have all brought results. */
  predicate AllOk(events: seq<Event>, n: nat) { n <= |events| && forall k | 0 <= k < n :: events[k].ok }

  /** One of the first n callbacks has brought an error. */
  predicate SomeError(events: seq<Event>, n: nat) { exists k :: 0 <= k < |events| && k < n && !events[k].ok }

  lemma {:induction false} PreloadFrom(lanes: nat, total: nat, s: State, events: seq<Event>)
    requires Inv(Preload, lanes, total, s) && s.settled.Pending? && Real(Preload, s, total, events)
    ensures var settled := Run(Preload, s, total, events).settled;
            && (settled.Fulfilled? <==> AllOk(events, total - s.completed))
            && (settled.Rejected? <==> SomeError(events, total - s.completed))
    decreases |events|
  {
    if events == [] {
    } else {
      var t := Callback(Preload, s, total, events[0]);
      CallbackKeepsInv(Preload, lanes, total, s, events[0]);
      if !events[0].ok || t.completed == total {
        StaysSettled(Preload, t, total, events[1..]);
      } else {
        PreloadFrom(lanes, total, t, events[1..]);
        OneLess(events, total - s.completed);
      }
    }
  }

  lemma OneLess(events: seq<Event>, n: nat)
    requires events != [] && events[0].ok && n > 0
    ensures (AllOk(events, n) <==> AllOk(events[1..], n - 1))
    ensures (SomeError(events, n) <==> SomeError(events[1..], n - 1))
  {
    var rest := events[1..];
    if AllOk(rest, n - 1) {
      forall k | 0 <= k < n ensures events[k].ok {
        assert k > 0 ==> events[k] == rest[k - 1];
      }
    }
    if SomeError(rest, n - 1) {
      var k :| 0 <= k < |rest| && k < n - 1 && !rest[k].ok;
      assert events[k + 1] == rest[k];
    }
    if SomeError(events, n) {
      var k :| 0 <= k < |events| && k < n && !events[k].ok;
      assert events[k] == rest[k - 1];
    }
  }

  /** preload's promise is fulfilled exactly if the first callbacks, as many as there are documents, all bring
      results, and rejected exactly if one of them brings an error. */
  lemma PreloadSettles(lanes: nat, total: nat, events: seq<Event>)
    requires lanes >= 1 && total >= 1 && Real(Preload, Launch(lanes, total), total, events)
    ensures var settled := Run(Preload, Launch(lanes, total), total, events).settled;
            (settled.Fulfilled? <==> AllOk(events, total)) && (settled.Rejected? <==> SomeError(events, total))
  {
    LaunchInv(Preload, lanes, total);
    LaunchState(lanes, total);
    PreloadFrom(lanes, total, Launch(lanes, total), events);
  }

  // ---- how long a run can be ----

  /** Only operations in flight call back. */
  ghost predicate Real(loop: Loop, s: State, total: nat, events: seq<Event>)
    decreases |events|
  {
    events == [] ||
    (events[0].j < |s.inflight| && Real(loop, Callback(loop, s, total, events[0]), total, events[1..]))
  }

  lemma {:induction false} RunCounts(loop: Loop, s: State, total: nat, events: seq<Event>)
    requires Real(loop, s, total, events)
    ensures var t := Run(loop, s, total, events); t.completed + t.errors == s.completed + s.errors + |events|
    decreases |events|
  {
    if events == [] {
    } else {
      RunCounts(loop, Callback(loop, s, total, events[0]), total, events[1..]);
    }
  }

  /** The run is over after total + lanes - 1 callbacks at the latest. */
  lemma RunsEnd(loop: Loop, lanes: nat, total: nat, events: seq<Event>)
    requires lanes >= 1 && total >= 1 && Real(loop, Launch(lanes, total), total, events)
    ensures |events| <= total + lanes - 1
    ensures |events| == total + lanes - 1 ==> Run(loop, Launch(lanes, total), total, events).inflight == []
  {
    Driver(loop, lanes, total, events);
    LaunchState(lanes, total);
    RunCounts(loop, Launch(lanes, total), total, events);
  }

  /** Without documents the promise is resolved at once, and yet every other lane works on key 0. */
  lemma NoDocuments(lanes: nat)
    requires lanes >= 1
    ensures var s := Launch(lanes, 0);
            && s.runFlag && s.settled.Fulfilled? && s.resolves == 1 && |s.inflight| == lanes - 1
            && forall k <- s.inflight :: k == 0
    ensures lanes >= 2 ==> Launch(lanes, 0).recorded == map[0 := 0]
  {
    ResolvedAtOnce(lanes);
  }

  lemma {:induction false} ResolvedAtOnce(lanes: nat)
    requires lanes >= 1
    ensures var s := Launch(lanes, 0);
            && s.completed == 0 && s.runFlag && s.settled.Fulfilled? && s.resolves == 1 && |s.inflight| == lanes - 1
            && (forall k <- s.inflight :: k == 0) && s.recorded == if lanes == 1 then map[] else map[0 := 0]
  {
    if lanes > 1 {
      ResolvedAtOnce(lanes - 1);
    }
  }

  // ---- the code ----

  /** One of the three promises, and the variables that its closures share. */
  class Promise {
    const loop: Loop
    const totalDocs: nat
    var completed: nat
    var runFlag: bool
    var getMultiArray: map<nat, nat>
    var inflight: seq<nat>
    var issued: seq<nat>
    var resolves: nat
    var errors: nat
    var settled: Settled

    ghost function View(): State
      reads this
    {
      State(completed, runFlag, getMultiArray, inflight, issued, resolves, errors, settled)
    }

    constructor (loop: Loop, totalDocs: nat)
      ensures View() == EMPTY && this.totalDocs == totalDocs && this.loop == loop
    {
      this.loop, this.totalDocs := loop, totalDocs;
      completed, runFlag, getMultiArray, inflight, issued, resolves, errors := 0, false, map[], [], [], 0, 0;
      settled := Pending;
    }

    /** resolve() and reject() */
    method Settle(outcome: Settled)
      modifies this`settled
      ensures settled == if old(settled).Pending? then outcome else old(settled)
    {
      if settled.Pending? {
        settled := outcome;
      }
    }

    /** upsertOne, getOne, modifyOne: either resolve() is called, for the first time, when all documents are
        done; or one more operation, on the key `completed`, is in flight and recorded; or nothing happens. */
    method UpsertOne()
      modifies this
      ensures View() == One(old(View()), totalDocs)
      ensures resolves > old(resolves) ==>
                old(completed) >= totalDocs && !old(runFlag) && runFlag && inflight == old(inflight)
      ensures inflight != old(inflight) ==>
                && inflight == old(inflight) + [completed] && issued == old(issued) + [completed]
                && completed in getMultiArray && completed <= totalDocs && settled == old(settled)
    {
      if completed >= totalDocs && !runFlag {
        runFlag := true;
        resolves := resolves + 1;
        Settle(Fulfilled);
      } else {
        if completed <= totalDocs {
          getMultiArray := getMultiArray[completed := completed];
          inflight, issued := inflight + [completed], issued + [completed];
        }
      }
    }

    /** `for (var i = 0; i < opsGroup; ++i) upsertOne()`: the window is full, and the driver's invariant holds. */
    method Fill(opsGroup: nat)
      requires View() == EMPTY
      modifies this
      ensures View() == Launch(opsGroup, totalDocs)
      ensures opsGroup >= 1 && totalDocs >= 1 ==> Inv(loop, opsGroup, totalDocs, View())
    {
      for i := 0 to opsGroup
        invariant View() == Launch(i, totalDocs)
      {
        UpsertOne();
      }
      if opsGroup >= 1 && totalDocs >= 1 {
        LaunchInv(loop, opsGroup, totalDocs);
      }
    }

    /** The callback of the j-th operation in flight, with a result or with an error. */
    method OnCallback(j: nat, res: bool, ghost lanes: nat)
      requires j < |inflight|
      modifies this
      ensures View() == Callback(loop, old(View()), totalDocs, Event(j, res))
      ensures Inv(loop, lanes, totalDocs, old(View())) ==> Inv(loop, lanes, totalDocs, View())
    {
      ghost var s := View();
      inflight := Without(inflight, j);
      if res {
        completed := completed + 1;
        UpsertOne();
      } else {
        errors := errors + 1;
        if loop.Preload? {
          Settle(Rejected);
        }
      }
      if Inv(loop, lanes, totalDocs, s) {
        CallbackKeepsInv(loop, lanes, totalDocs, s, Event(j, res));
      }
    }
  }
}
