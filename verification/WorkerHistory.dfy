/**
 Outcomes of the worker-backed prover, told from the events alone: what a promise is
 settled with is decided by the first event after its request that concerns it.
 */
module WorkerHistory {
  import opened Wrappers
  import opened WorkerProver

  // --------------------------------------------------------------- one event

  /** The outcome that an event brings to a request that is pending, if any. */
  function Verdict<R>(e: Event<R>, id: nat): Option<Outcome<R>> {
    match e
    case Request => None
    case Message(replyTo, result) =>
      if replyTo != Some(id) then None
      else if result.Some? then Some(Resolved(result.value))
      else Some(WorkerFailed)
    case WorkerError => Some(WorkerFailed)
    case Timeout(fired) => if fired == id then Some(TimedOut) else None
    case Terminate => Some(Outcome<R>.Terminated)
  }

  ghost predicate SettledWith<R>(s: State<R>, id: nat, outcome: Outcome<R>) {
    Settlement(id, outcome) in s.log
  }

  /**
   An event settles exactly the pending requests it concerns, in the order they were
   issued and each with its verdict, and leaves the others pending.
   */
  lemma EventSettles<R>(s: State<R>, e: Event<R>)
    requires Inv(s)
    ensures var t := Step(s, e);
      && s.log <= t.log
      && (forall id, outcome :: SettledWith(t, id, outcome) <==>
            SettledWith(s, id, outcome) || (id in s.pending && Verdict(e, id) == Some(outcome)))
      && (forall id :: id in t.pending <==>
            (id in s.pending && Verdict(e, id).None?) || (e.Request? && id == s.counter + 1))
      && (forall j, k :: |s.log| <= j < k < |t.log| ==> t.log[j].id < t.log[k].id)
  {
    var t := Step(s, e);
    match e
    case Request =>
    case Message(replyTo, result) =>
      if replyTo.Some? && replyTo.value in s.pending {
        WithoutRemoves(s.pending, replyTo.value, 0, s.counter);
      }
    case Timeout(fired) =>
      if fired in s.timers {
        WithoutRemoves(s.pending, fired, 0, s.counter);
      }
    case WorkerError => SweepSettles(s, t, WorkerFailed);
    case Terminate => SweepSettles(s, t, Outcome<R>.Terminated);
  }

  lemma SweepSettles<R>(s: State<R>, t: State<R>, outcome: Outcome<R>)
    requires Inv(s) && t.log == s.log + SettleAll(s.pending, outcome)
    ensures forall id, o :: SettledWith(t, id, o) <==>
      SettledWith(s, id, o) || (id in s.pending && o == outcome)
    ensures forall j, k :: |s.log| <= j < k < |t.log| ==> t.log[j].id < t.log[k].id
  {
    var swept := SettleAll(s.pending, outcome);
    forall id, o
      ensures Settlement(id, o) in swept <==> id in s.pending && o == outcome
    {
      if id in s.pending {
        var i :| 0 <= i < |s.pending| && s.pending[i] == id;
        assert swept[i] == Settlement(id, outcome);
      }
    }
  }

  /** What each event does to a pending request, to the letter. */
  lemma Outcomes<R>(s: State<R>, id: nat, result: R)
    requires Inv(s) && id in s.pending
    ensures Step(s, Message(Some(id), Some(result))).log == s.log + [Settlement(id, Resolved(result))]
    ensures Step(s, Message(Some(id), None)).log == s.log + [Settlement(id, WorkerFailed)]
    ensures Step(s, Timeout(id)).log == s.log + [Settlement(id, TimedOut)]
    ensures SettledWith(Step(s, WorkerError), id, WorkerFailed) && Step(s, WorkerError).pending == []
    ensures SettledWith(Step(s, Event<R>.Terminate), id, Outcome<R>.Terminated)
    ensures Step(s, Event<R>.Terminate).pending == [] && !Step(s, Event<R>.Terminate).alive
    ensures forall e :: e == Message(Some(id), Some(result)) || e == Message(Some(id), None) || e == Timeout(id) ==>
      forall other :: other in Step(s, e).pending <==> other in s.pending && other != id
  {
    EventSettles(s, WorkerError);
    EventSettles(s, Event<R>.Terminate);
    WithoutRemoves(s.pending, id, 0, s.counter);
  }

  // ---------------------------------------------------------------- whole runs

  lemma {:induction false} RunOneMore<R>(s: State<R>, events: seq<Event<R>>, e: Event<R>)
    ensures Run(s, events + [e]) == Step(Run(s, events), e)
    decreases |events|
  {
    if |events| == 0 {
      assert events + [e] == [e];
    } else {
      RunOneMore(Step(s, events[0]), events[1..], e);
      assert (events + [e])[1..] == events[1..] + [e];
    }
  }

  /** The number of requests among the events. */
  function Requests<R>(events: seq<Event<R>>): nat {
    if |events| == 0 then 0
    else Requests(events[..|events| - 1]) + if events[|events| - 1].Request? then 1 else 0
  }

  /** Event k is the request with this number. */
  predicate Issues<R>(events: seq<Event<R>>, k: int, id: nat) {
    0 <= k < |events| && events[k].Request? && Requests(events[..k]) + 1 == id
  }

  /** Event j is the first after k that concerns the request. */
  ghost predicate Decides<R>(events: seq<Event<R>>, k: int, j: int, id: nat) {
    && 0 <= k < j < |events| && Verdict(events[j], id).Some?
    && forall i :: k < i < j ==> Verdict(events[i], id).None?
  }

  ghost predicate Undecided<R>(events: seq<Event<R>>, k: int, id: nat) {
    0 <= k && forall i :: k < i < |events| ==> Verdict(events[i], id).None?
  }

  lemma {:induction false} CounterCounts<R>(events: seq<Event<R>>)
    ensures Run(Initial<R>(), events).counter == Requests(events)
  {
    if |events| > 0 {
      var n := |events| - 1;
      CounterCounts(events[..n]);
      RunOneMore(Initial<R>(), events[..n], events[n]);
      assert events == events[..n] + [events[n]];
    }
  }

  /** A request is pending as long as no event has concerned it; the first one settles it. */
  lemma {:induction false} PendingOrDecided<R>(events: seq<Event<R>>, k: int, id: nat)
    requires Issues(events, k, id)
    ensures var s := Run(Initial<R>(), events);
      && (Undecided(events, k, id) ==> id in s.pending)
      && (forall j :: Decides(events, k, j, id) ==> SettledWith(s, id, Verdict(events[j], id).value))
  {
    var n := |events| - 1;
    var front, last := events[..n], events[n];
    var s, s' := Run(Initial<R>(), front), Run(Initial<R>(), events);
    assert events == front + [last];
    SettlesOnce(front);
    RunOneMore(Initial<R>(), front, last);
    EventSettles(s, last);
    if k == n {
      assert front == events[..k];
      CounterCounts(front);
    } else {
      assert front[..k] == events[..k];
      PendingOrDecided(front, k, id);
      if Undecided(events, k, id) {
        assert Undecided(front, k, id);
      }
      forall j | Decides(events, k, j, id)
        ensures SettledWith(s', id, Verdict(events[j], id).value)
      {
        if j < n {
          assert Decides(front, k, j, id);
        } else {
          assert Undecided(front, k, id);
        }
      }
    }
  }

  lemma FirstDecision<R>(events: seq<Event<R>>, k: int, id: nat) returns (j: int)
    requires 0 <= k < |events|
    ensures Undecided(events, k, id) || Decides(events, k, j, id)
  {
    j := k + 1;
    while j < |events| && Verdict(events[j], id).None?
      invariant k < j <= |events|
      invariant forall i :: k < i < j ==> Verdict(events[i], id).None?
    {
      j := j + 1;
    }
  }

  /**
   Over every run, for every request: it is pending exactly while no later event has
   concerned it, and otherwise its one settlement is the verdict of the first that did.
   A worker's proof thus resolves the promise unless an error, its timeout or a
   termination came before.
   */
  lemma FateOfRequest<R>(events: seq<Event<R>>, k: int, id: nat)
    requires Issues(events, k, id)
    ensures var s := Run(Initial<R>(), events);
      && (id in s.pending <==> Undecided(events, k, id))
      && (forall outcome :: SettledWith(s, id, outcome) <==>
            exists j :: Decides(events, k, j, id) && Verdict(events[j], id) == Some(outcome))
  {
    var s := Run(Initial<R>(), events);
    SettlesOnce(events);
    PendingOrDecided(events, k, id);
    var j := FirstDecision(events, k, id);
    forall outcome | SettledWith(s, id, outcome)
      ensures Decides(events, k, j, id) && Verdict(events[j], id) == Some(outcome)
    {
      assert Settled(s, id);
      assert SettledWith(s, id, Verdict(events[j], id).value);
    }
    if Decides(events, k, j, id) {
      assert Settled(s, id);
    }
  }

  /** A worker exists exactly when a request came after the last termination. */
  lemma {:induction false} WorkerExistsIff<R>(events: seq<Event<R>>)
    ensures Run(Initial<R>(), events).alive <==>
      exists k :: 0 <= k < |events| && events[k].Request? && forall j :: k < j < |events| ==> !events[j].Terminate?
  {
    if |events| > 0 {
      var n := |events| - 1;
      var front, last := events[..n], events[n];
      assert events == front + [last];
      WorkerExistsIff(front);
      RunOneMore(Initial<R>(), front, last);
      if Run(Initial<R>(), front).alive && !last.Terminate? {
        var k :| 0 <= k < n && front[k].Request? && forall j :: k < j < n ==> !front[j].Terminate?;
        assert events[k].Request?;
      }
      if k :| 0 <= k < n && events[k].Request? && forall j :: k < j < |events| ==> !events[j].Terminate? {
        assert front[k].Request? && !last.Terminate?;
      }
    }
  }
}
