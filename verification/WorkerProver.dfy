/**
 The client's worker-backed prover: requests, worker messages, worker errors,
 timeouts and termination, in any order.
 */
module WorkerProver {
  import opened Wrappers

  datatype Outcome<R> = Resolved(result: R) | WorkerFailed | TimedOut | Terminated

  /** A call of a promise's resolve or reject. */
  datatype Settlement<R> = Settlement(id: nat, outcome: Outcome<R>)

  datatype State<R> = State(
    counter: nat,               // last id handed out
    pending: seq<nat>,          // keys of the pending map, in insertion order
    timers: set<nat>,           // armed timeouts
    alive: bool,                // a worker exists
    posted: seq<nat>,           // requests handed to the worker, in order
    log: seq<Settlement<R>>)    // settlements so far

  datatype Event<R> =
    | Request
    | Message(replyTo: Option<nat>, result: Option<R>)
    | WorkerError
    | Timeout(id: nat)
    | Terminate

  function Without(pending: seq<nat>, id: nat): seq<nat> {
    if |pending| == 0 then []
    else if pending[0] == id then pending[1..]
    else [pending[0]] + Without(pending[1..], id)
  }

  function SettleAll<R>(pending: seq<nat>, outcome: Outcome<R>): seq<Settlement<R>> {
    seq(|pending|, i requires 0 <= i < |pending| => Settlement(pending[i], outcome))
  }

  function SettleOne<R>(s: State<R>, id: nat, outcome: Outcome<R>): State<R> {
    s.(pending := Without(s.pending, id), timers := s.timers - {id}, log := s.log + [Settlement(id, outcome)])
  }

  function AllSettled<R>(s: State<R>, outcome: Outcome<R>): State<R> {
    s.(pending := [], timers := s.timers - (set id | id in s.pending), log := s.log + SettleAll(s.pending, outcome))
  }

  function Step<R>(s: State<R>, e: Event<R>): State<R> {
    match e
    case Request =>
      var id := s.counter + 1;
      s.(counter := id, pending := s.pending + [id], timers := s.timers + {id}, alive := true,
         posted := s.posted + [id])
    case Message(id, result) =>
      if id.None? || id.value !in s.pending then s
      else
        var outcome := if result.Some? then Resolved(result.value) else WorkerFailed;
        SettleOne(s, id.value, outcome)
    case WorkerError => AllSettled(s, WorkerFailed)
    case Timeout(id) =>
      // A cleared timer does not fire.
      if id !in s.timers then s else SettleOne(s, id, TimedOut)
    case Terminate => AllSettled(s.(alive := false), Outcome<R>.Terminated)
  }

  function Initial<R>(): State<R> {
    State(0, [], {}, false, [], [])
  }

  function Run<R>(s: State<R>, events: seq<Event<R>>): State<R>
    decreases |events|
  {
    if |events| == 0 then s else Run(Step(s, events[0]), events[1..])
  }

  // --------------------------------------------------------- the object

  class Prover<R> {
    var counter: nat
    var pending: seq<nat>
    var timers: set<nat>
    var alive: bool
    var posted: seq<nat>
    var log: seq<Settlement<R>>

    function Abs(): State<R>
      reads this
    {
      State(counter, pending, timers, alive, posted, log)
    }

    constructor ()
      ensures Abs() == Initial()
    {
      counter, pending, timers, alive, posted, log := 0, [], {}, false, [], [];
    }

    method GenerateInWorker() returns (id: nat)
      modifies this
      ensures Abs() == Step(old(Abs()), Request)
      ensures id == counter
    {
      counter := counter + 1;
      id := counter;
      EnsureWorker();
      timers := timers + {id};
      pending := pending + [id];
      posted := posted + [id];
    }

    method EnsureWorker()
      modifies this`alive
      ensures alive
    {
      if !alive {
        alive := true;
      }
    }

    method OnMessage(id: Option<nat>, result: Option<R>)
      modifies this
      ensures Abs() == Step(old(Abs()), Message(id, result))
    {
      if id.None? || id.value !in pending { return; }
      pending := Without(pending, id.value);
      if result.Some? {
        Settle(id.value, Resolved(result.value));
      } else {
        Settle(id.value, WorkerFailed);
      }
    }

    /** The stored callbacks: disarm the timer, then settle the promise. */
    method Settle(id: nat, outcome: Outcome<R>)
      modifies this`timers, this`log
      ensures timers == old(timers) - {id}
      ensures log == old(log) + [Settlement(id, outcome)]
    {
      timers := timers - {id};
      log := log + [Settlement(id, outcome)];
    }

    method RejectAllPending(outcome: Outcome<R>)
      modifies this`timers, this`log, this`pending
      ensures pending == []
      ensures timers == old(timers) - (set id | id in old(pending))
      ensures log == old(log) + SettleAll(old(pending), outcome)
    {
      for i := 0 to |pending|
        invariant pending == old(pending)
        invariant timers == old(timers) - (set id | id in pending[..i])
        invariant log == old(log) + SettleAll(pending[..i], outcome)
      {
        assert pending[..i + 1] == pending[..i] + [pending[i]];
        Settle(pending[i], outcome);
      }
      assert pending[..|pending|] == pending;
      pending := [];
    }

    method OnError()
      modifies this
      ensures Abs() == Step(old(Abs()), WorkerError)
    {
      RejectAllPending(WorkerFailed);
    }

    method OnTimeout(id: nat)
      requires id in timers
      modifies this
      ensures Abs() == Step(old(Abs()), Timeout(id))
    {
      timers := timers - {id};
      pending := Without(pending, id);
      log := log + [Settlement(id, TimedOut)];
    }

    method Terminate()
      modifies this
      ensures Abs() == Step(old(Abs()), Event<R>.Terminate)
    {
      if alive {
        alive := false;
      }
      RejectAllPending(Outcome<R>.Terminated);
    }
  }

  // ------------------------------------------------------------ over all runs

  /** Strictly increasing, all above lo and at most hi. */
  ghost predicate Increasing(ids: seq<nat>, lo: nat, hi: nat) {
    && (forall i, j :: 0 <= i < j < |ids| ==> ids[i] < ids[j])
    && forall i :: 0 <= i < |ids| ==> lo < ids[i] <= hi
  }

  ghost predicate Settled<R>(s: State<R>, id: nat) {
    exists k :: 0 <= k < |s.log| && s.log[k].id == id
  }

  /**
   Each request was posted to a worker once, under its own id. Pending and settled
   requests partition the issued ones, the armed timers are those of the pending
   requests, and no request is settled twice.
   */
  ghost predicate Inv<R>(s: State<R>) {
    && Increasing(s.pending, 0, s.counter)
    && |s.posted| == s.counter && (forall i :: 0 <= i < |s.posted| ==> s.posted[i] == i + 1)
    && (forall id: nat :: id in s.timers <==> id in s.pending)
    && (forall id: nat :: Settled(s, id) <==> 1 <= id <= s.counter && id !in s.pending)
    && (forall j, k :: 0 <= j < k < |s.log| ==> s.log[j].id != s.log[k].id)
  }

  lemma {:induction false} WithoutRemoves(pending: seq<nat>, id: nat, lo: nat, hi: nat)
    requires Increasing(pending, lo, hi)
    ensures Increasing(Without(pending, id), lo, hi)
    ensures forall x :: x in Without(pending, id) <==> x in pending && x != id
  {
    if |pending| > 0 {
      var first, rest := pending[0], pending[1..];
      assert pending == [first] + rest;
      assert Increasing(rest, first, hi);
      if first != id {
        WithoutRemoves(rest, id, first, hi);
      }
    }
  }

  lemma InvIgnoresAlive<R>(s: State<R>, alive: bool)
    requires Inv(s)
    ensures Inv(s.(alive := alive))
  {
    var t := s.(alive := alive);
    assert t.log == s.log && forall id: nat :: Settled(t, id) <==> Settled(s, id);
  }

  lemma RequestKeepsInv<R>(s: State<R>)
    requires Inv(s)
    ensures Inv(Step(s, Request))
  {
    var t := Step(s, Request);
    assert t.log == s.log && forall id: nat :: Settled(t, id) <==> Settled(s, id);
  }

  lemma StepKeepsInv<R>(s: State<R>, e: Event<R>)
    requires Inv(s)
    ensures Inv(Step(s, e))
    ensures s.log <= Step(s, e).log
  {
    match e
    case Request => RequestKeepsInv(s);
    case Message(id, result) =>
      if id.Some? && id.value in s.pending {
        SettleOneKeepsInv(s, id.value, if result.Some? then Resolved(result.value) else WorkerFailed);
      }
    case Timeout(id) =>
      if id in s.timers {
        SettleOneKeepsInv(s, id, TimedOut);
      }
    case WorkerError => SettleAllKeepsInv(s, WorkerFailed);
    case Terminate =>
      InvIgnoresAlive(s, false);
      SettleAllKeepsInv(s.(alive := false), Outcome<R>.Terminated);
  }

  lemma SettleOneKeepsInv<R>(s: State<R>, id: nat, outcome: Outcome<R>)
    requires Inv(s) && id in s.pending
    ensures Inv(SettleOne(s, id, outcome))
  {
    var t := SettleOne(s, id, outcome);
    WithoutRemoves(s.pending, id, 0, s.counter);
    assert !Settled(s, id);
    forall x
      ensures Settled(t, x) <==> Settled(s, x) || x == id
    {
      assert t.log[|s.log|].id == id;
      if Settled(s, x) {
        var k :| 0 <= k < |s.log| && s.log[k].id == x;
        assert t.log[k].id == x;
      }
    }
  }

  lemma SettleFirst<R>(s: State<R>, outcome: Outcome<R>)
    requires |s.pending| > 0
    ensures SettleOne(s, s.pending[0], outcome).pending == s.pending[1..]
    ensures AllSettled(SettleOne(s, s.pending[0], outcome), outcome) == AllSettled(s, outcome)
  {
    var first, rest := s.pending[0], s.pending[1..];
    assert s.pending == [first] + rest;
    assert [Settlement(first, outcome)] + SettleAll(rest, outcome) == SettleAll(s.pending, outcome);
  }

  /** Rejecting everything is settling the pending requests one after the other. */
  lemma {:induction false} SettleAllKeepsInv<R>(s: State<R>, outcome: Outcome<R>)
    requires Inv(s)
    ensures Inv(AllSettled(s, outcome))
    decreases |s.pending|
  {
    if |s.pending| == 0 {
      assert AllSettled(s, outcome) == s;
    } else {
      SettleFirst(s, outcome);
      SettleOneKeepsInv(s, s.pending[0], outcome);
      SettleAllKeepsInv(SettleOne(s, s.pending[0], outcome), outcome);
    }
  }

  lemma {:induction false} RunKeepsInv<R>(s: State<R>, events: seq<Event<R>>)
    requires Inv(s)
    ensures Inv(Run(s, events))
    ensures s.log <= Run(s, events).log
    decreases |events|
  {
    if |events| > 0 {
      StepKeepsInv(s, events[0]);
      RunKeepsInv(Step(s, events[0]), events[1..]);
    }
  }

  /**
   In every interleaving the pending requests are exactly the issued ones without a
   settlement, each has an armed timer, and no request settles twice.
   */
  lemma SettlesOnce<R>(events: seq<Event<R>>)
    ensures Inv(Run(Initial<R>(), events))
  {
    assert Initial<R>().log == [];
    RunKeepsInv(Initial<R>(), events);
  }

  /**
   A reply or a timeout settles at most the request it names, and a late or
   duplicate one changes nothing, however many requests were issued since.
   */
  lemma LateReplyIsIgnored<R>(s: State<R>, id: nat, result: Option<R>)
    requires Inv(s)
    ensures Settled(s, id) ==> Step(s, Message(Some(id), result)) == s && Step(s, Timeout(id)) == s
    ensures forall other :: other != id ==>
      (Settled(Step(s, Message(Some(id), result)), other) <==> Settled(s, other))
  {
    var t := Step(s, Message(Some(id), result));
    forall other | other != id
      ensures Settled(t, other) <==> Settled(s, other)
    {
      if Settled(s, other) {
        var k :| 0 <= k < |s.log| && s.log[k].id == other;
        assert t.log[k].id == other;
      }
      if Settled(t, other) {
        var k :| 0 <= k < |t.log| && t.log[k].id == other;
        assert k < |s.log| && s.log[k].id == other;
      }
    }
  }
}
