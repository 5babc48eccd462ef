/** The coalesced refresh of chain queries: one invalidation in flight, at most one queued behind it. */
module RefreshCoalescer {
  import opened Texts

  datatype Event = Called | Started | Finished

  /** What happens from outside: a caller asks for a refresh, or the running invalidation settles. */
  datatype Action = Call | Settle

  /** The two module variables, with everything that has happened so far. */
  datatype State = State(inFlight: bool, queued: bool, trace: seq<Event>)

  const IDLE := State(false, false, [])

  function Begin(s: State): State {
    s.(inFlight := true, trace := s.trace + [Started])
  }

  function Step(s: State, action: Action): State {
    match action
    case Call =>
      var called := s.(trace := s.trace + [Called]);
      if s.inFlight then called.(queued := true) else Begin(called)
    case Settle =>
      if !s.inFlight then s
      else
        var done := s.(inFlight := false, queued := false, trace := s.trace + [Finished]);
        if s.queued then Begin(done) else done
  }

  function Run(s: State, actions: seq<Action>): State {
    if actions == [] then s else Step(Run(s, actions[..|actions| - 1]), actions[|actions| - 1])
  }

  // ----- Reading a trace -----

  function Count(trace: seq<Event>, event: Event): nat {
    if trace == [] then 0
    else Count(trace[..|trace| - 1], event) + (if trace[|trace| - 1] == event then 1 else 0)
  }

  /** Some call has no start after it. */
  predicate Unserved(trace: seq<Event>) {
    trace != [] &&
    match trace[|trace| - 1]
    case Started => false
    case Called => true
    case Finished => Unserved(trace[..|trace| - 1])
  }

  /** Starts and finishes alternate: never two invalidations at once. */
  ghost predicate OneAtATime(trace: seq<Event>) {
    forall n | 0 <= n <= |trace| ::
      Count(trace[..n], Finished) <= Count(trace[..n], Started) <= Count(trace[..n], Finished) + 1
  }

  lemma CountAppend(trace: seq<Event>, last: Event, event: Event)
    ensures Count(trace + [last], event) == Count(trace, event) + (if last == event then 1 else 0)
  {
    assert (trace + [last])[..|trace|] == trace;
  }

  lemma UnservedAppend(trace: seq<Event>, last: Event)
    ensures Unserved(trace + [last]) <==> last == Called || (last == Finished && Unserved(trace))
  {
    assert (trace + [last])[..|trace|] == trace;
  }

  lemma OneAtATimeAppend(trace: seq<Event>, last: Event)
    requires OneAtATime(trace)
    requires var n := Count(trace, Started) - Count(trace, Finished);
      match last case Called => true case Started => n == 0 case Finished => n == 1
    ensures OneAtATime(trace + [last])
  {
    CountAppend(trace, last, Started);
    CountAppend(trace, last, Finished);
    assert trace[..|trace|] == trace;
    forall n | 0 <= n <= |trace| + 1
      ensures Count((trace + [last])[..n], Finished) <= Count((trace + [last])[..n], Started)
        <= Count((trace + [last])[..n], Finished) + 1
    {
      if n <= |trace| {
        assert (trace + [last])[..n] == trace[..n];
      } else {
        assert (trace + [last])[..n] == trace + [last];
      }
    }
  }

  // ----- What every run keeps -----

  ghost predicate Invariant(s: State) {
    && OneAtATime(s.trace)
    && Count(s.trace, Started) == Count(s.trace, Finished) + (if s.inFlight then 1 else 0)
    && (s.queued ==> s.inFlight)
    && (s.queued <==> Unserved(s.trace))
    && Count(s.trace, Started) + (if s.queued then 1 else 0) <= Count(s.trace, Called)
  }

  lemma TraceGrows(trace: seq<Event>, event: Event)
    ensures forall e :: Count(trace + [event], e) == Count(trace, e) + (if event == e then 1 else 0)
    ensures Unserved(trace + [event]) <==> event == Called || (event == Finished && Unserved(trace))
  {
    forall e {
      CountAppend(trace, event, e);
    }
    UnservedAppend(trace, event);
  }

  lemma StepKeepsInvariant(s: State, action: Action)
    requires Invariant(s)
    ensures Invariant(Step(s, action))
  {
    hide Count, Unserved, OneAtATime;
    if action == Call {
      TraceGrows(s.trace, Called);
      OneAtATimeAppend(s.trace, Called);
      if !s.inFlight {
        TraceGrows(s.trace + [Called], Started);
        OneAtATimeAppend(s.trace + [Called], Started);
      }
    } else if s.inFlight {
      TraceGrows(s.trace, Finished);
      OneAtATimeAppend(s.trace, Finished);
      if s.queued {
        TraceGrows(s.trace + [Finished], Started);
        OneAtATimeAppend(s.trace + [Finished], Started);
      }
    }
  }

  /** Every interleaving of calls and completions keeps the invariant. */
  lemma {:induction false} RunKeepsInvariant(actions: seq<Action>)
    ensures Invariant(Run(IDLE, actions))
  {
    if actions == [] {
      var none: seq<Event> := [];
      assert none[..0] == none;
    } else {
      RunKeepsInvariant(actions[..|actions| - 1]);
      StepKeepsInvariant(Run(IDLE, actions[..|actions| - 1]), actions[|actions| - 1]);
    }
  }

  lemma {:induction false} ServedMeansStartedLater(trace: seq<Event>, i: nat)
    requires !Unserved(trace) && i < |trace| && trace[i] == Called
    ensures exists j | i < j < |trace| :: trace[j] == Started
  {
    var last := |trace| - 1;
    if trace[last] == Finished {
      ServedMeansStartedLater(trace[..last], i);
      var j :| i < j < last && trace[..last][j] == Started;
      assert trace[j] == Started;
    } else {
      assert trace[last] == Started;
    }
  }

  /** No request is lost: in an idle coalescer every call was followed by a start. */
  lemma NoRequestLost(actions: seq<Action>, i: nat)
    requires var s := Run(IDLE, actions); !s.queued && i < |s.trace| && s.trace[i] == Called
    ensures var trace := Run(IDLE, actions).trace; exists j | i < j < |trace| :: trace[j] == Started
  {
    RunKeepsInvariant(actions);
    ServedMeansStartedLater(Run(IDLE, actions).trace, i);
  }

  function Calls(n: nat): seq<Action> {
    seq(n, _ => Call)
  }

  lemma {:induction false} BurstQueuesOnce(s: State, calls: nat)
    requires s.inFlight
    ensures var r := Run(s, Calls(calls));
      && r.inFlight && (r.queued <==> s.queued || calls > 0)
      && Count(r.trace, Started) == Count(s.trace, Started)
  {
    if calls > 0 {
      BurstQueuesOnce(s, calls - 1);
      assert Calls(calls)[..calls - 1] == Calls(calls - 1);
      CountAppend(Run(s, Calls(calls - 1)).trace, Called, Started);
    }
  }

  /**
   * A burst of any size during one refresh causes exactly one more invalidation when it settles,
   * and none is left queued behind that one; no calls cause none.
   */
  lemma BurstCausesOneMore(s: State, calls: nat)
    requires s.inFlight && !s.queued
    ensures var r := Step(Run(s, Calls(calls)), Settle);
      && !r.queued && (r.inFlight <==> calls > 0)
      && Count(r.trace, Started) == Count(s.trace, Started) + (if calls > 0 then 1 else 0)
  {
    hide Count, Run;
    BurstQueuesOnce(s, calls);
    var b := Run(s, Calls(calls));
    CountAppend(b.trace, Finished, Started);
    CountAppend(b.trace + [Finished], Started, Started);
  }

  // ----- The module's variables -----

  /** `foregroundRefresh` holds the promise of the invalidation in flight, named by its number. */
  class Coalescer {
    var foregroundRefresh: Option<nat>
    var foregroundRefreshQueued: bool
    var started: nat
    ghost var trace: seq<Event>

    constructor ()
      ensures Abstract() == IDLE && Valid()
    {
      foregroundRefresh, foregroundRefreshQueued, started, trace := None, false, 0, [];
      new;
      RunKeepsInvariant([]);
    }

    ghost function Abstract(): State
      reads this
    {
      State(foregroundRefresh.Some?, foregroundRefreshQueued, trace)
    }

    ghost predicate Valid()
      reads this
    {
      && Invariant(Abstract())
      && started == Count(trace, Started)
      && (foregroundRefresh.Some? ==> foregroundRefresh.value == started)
    }

    /** The call to the query client; its promise is the number of starts so far. */
    method Invalidate()
      requires foregroundRefresh.None? && started == Count(trace, Started)
      modifies this
      ensures Abstract() == Begin(old(Abstract()))
      ensures started == old(started) + 1 == Count(trace, Started) && foregroundRefresh == Some(started)
    {
      CountAppend(trace, Started, Started);
      started := started + 1;
      foregroundRefresh := Some(started);
      trace := trace + [Started];
    }

    /**
     * `refreshChainQueries`. A call made during a refresh is handed that refresh's promise, which
     * began before the call; only the queued follow-up begins after it.
     */
    method Refresh() returns (promise: nat)
      requires Valid()
      modifies this
      ensures Valid() && Abstract() == Step(old(Abstract()), Call)
      ensures foregroundRefresh == Some(promise)
      ensures old(foregroundRefresh).Some? ==> promise == old(foregroundRefresh).value == old(started)
      ensures old(foregroundRefresh).None? ==> promise == old(started) + 1
    {
      ghost var before := Abstract();
      StepKeepsInvariant(before, Call);
      CountAppend(trace, Called, Started);
      trace := trace + [Called];
      if foregroundRefresh.Some? {
        foregroundRefreshQueued := true;
        return foregroundRefresh.value;
      }
      Invalidate();
      return foregroundRefresh.value;
    }

    /** The `finally` step of the invalidation in flight. */
    method Finally()
      requires Valid() && foregroundRefresh.Some?
      modifies this
      ensures Valid() && Abstract() == Step(old(Abstract()), Settle)
    {
      ghost var before := Abstract();
      StepKeepsInvariant(before, Settle);
      CountAppend(trace, Finished, Started);
      trace := trace + [Finished];
      foregroundRefresh := None;
      if foregroundRefreshQueued {
        foregroundRefreshQueued := false;
        Invalidate();
      }
    }
  }
}
