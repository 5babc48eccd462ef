/** Recovery of a wallet session when the phone comes back to the browser. */
module WalletRevival {
  import opened Arithmetic
  import opened Texts

  /** A connector object; `uid` is its identity. */
  datatype Connector = Connector(uid: nat, id: Text, kind: Text)

  // ----- Candidates -----

  predicate CanRecover(c: Connector) {
    c.id == Ascii("metaMaskConnect") || c.id == Ascii("walletConnect") || c.kind == Ascii("walletConnect")
  }

  /** Recoverable connectors, each at its first position only. */
  function Candidates(all: seq<Connector>): (r: seq<Connector>) {
    if all == [] then []
    else
      var front, last := all[..|all| - 1], all[|all| - 1];
      if CanRecover(last) && last !in front then Candidates(front) + [last] else Candidates(front)
  }

  /** The connected connector, then the remembered ones, then every configured one. */
  function Considered(connected: Option<Connector>, persisted: seq<Connector>, configured: seq<Connector>)
    : seq<Connector>
  {
    (if connected.Some? then [connected.value] else []) + persisted + configured
  }

  /** Every recoverable connector is a candidate, once, and nothing else is. */
  lemma {:induction false} CandidatesAre(all: seq<Connector>)
    ensures NoDuplicates(Candidates(all))
    ensures forall c :: c in Candidates(all) <==>
      c in all &&
      (c.id == Ascii("metaMaskConnect") || c.id == Ascii("walletConnect") || c.kind == Ascii("walletConnect"))
  {
    if all != [] {
      var front, last := all[..|all| - 1], all[|all| - 1];
      CandidatesAre(front);
      assert all == front + [last];
    }
  }

  /** `a` is met in `all` before `b` is. */
  ghost predicate MetBefore(all: seq<Connector>, a: Connector, b: Connector) {
    exists p | 0 <= p < |all| :: all[p] == a && b !in all[..p + 1]
  }

  lemma MetBeforeMore(front: seq<Connector>, last: Connector, a: Connector, b: Connector)
    requires MetBefore(front, a, b)
    ensures MetBefore(front + [last], a, b)
  {
    var p :| 0 <= p < |front| && front[p] == a && b !in front[..p + 1];
    assert (front + [last])[p] == a && (front + [last])[..p + 1] == front[..p + 1];
  }

  /** Candidates keep the order in which they are first met. */
  lemma {:induction false} CandidatesInOrder(all: seq<Connector>, i: nat, j: nat)
    requires i < j < |Candidates(all)|
    ensures MetBefore(all, Candidates(all)[i], Candidates(all)[j])
  {
    var front, last := all[..|all| - 1], all[|all| - 1];
    var before := Candidates(front);
    assert all == front + [last];
    if j < |before| {
      CandidatesInOrder(front, i, j);
      MetBeforeMore(front, last, before[i], before[j]);
    } else {
      CandidatesAre(front);
      assert before[i] in front;
      var p :| 0 <= p < |front| && front[p] == before[i];
      assert all[p] == before[i] && all[..p + 1] == front[..p + 1];
    }
  }

  /** The owner of the session and the remembered connectors come before those only configured. */
  lemma KnownBeforeConfigured(
    connected: Option<Connector>, persisted: seq<Connector>, configured: seq<Connector>, i: nat, j: nat)
    requires var cs := Candidates(Considered(connected, persisted, configured));
      && i < |cs| && j < |cs|
      && (Some(cs[i]) == connected || cs[i] in persisted) && Some(cs[j]) != connected && cs[j] !in persisted
    ensures i < j
  {
    var cs := Candidates(Considered(connected, persisted, configured));
    var known := (if connected.Some? then [connected.value] else []) + persisted;
    var first := Candidates(known);
    CandidatesPrefix(known, configured);
    CandidatesAre(known);
    CandidatesAre(Considered(connected, persisted, configured));
    assert cs[i] in first by { assert cs[i] in cs; }
    var k :| 0 <= k < |first| && first[k] == cs[i];
    assert cs[k] == cs[i];
    assert forall m | 0 <= m < |first| :: cs[m] == first[m] && first[m] in first && first[m] in known;
  }

  lemma {:induction false} CandidatesPrefix(first: seq<Connector>, rest: seq<Connector>)
    ensures Candidates(first) <= Candidates(first + rest)
    decreases |rest|
  {
    if rest == [] {
      assert first + rest == first;
    } else {
      CandidatesPrefix(first, rest[..|rest| - 1]);
      assert (first + rest)[..|first + rest| - 1] == first + rest[..|rest| - 1];
    }
  }

  /** A recoverable connector that owns the session is tried first. */
  lemma ConnectedGoesFirst(connected: Connector, persisted: seq<Connector>, configured: seq<Connector>)
    requires CanRecover(connected)
    ensures var cs := Candidates(Considered(Some(connected), persisted, configured));
      cs != [] && cs[0] == connected
  {
    assert [connected][..0] == [];
    assert Candidates([connected]) == [connected];
    CandidatesPrefix([connected], persisted + configured);
    Assoc([connected], persisted, configured);
  }

  // ----- The outside world -----

  /** How a promise turns out if nobody stops waiting: after some time, or never. */
  datatype Answer<T> = Resolves(after: nat, value: T) | Rejects(after: nat) | Hangs

  datatype Outcome<T> = Fulfilled(value: T) | Failed

  datatype Awaited<T> = Awaited(outcome: Outcome<T>, ms: nat)

  /** `bounded`: the promise raced against a timer. */
  function Bounded<T>(answer: Answer<T>, timeout: nat): (r: Awaited<T>)
    ensures r.ms == if answer.Hangs? || answer.after > timeout then timeout else answer.after
    ensures r.outcome.Fulfilled? <==> answer.Resolves? && answer.after <= timeout
  {
    match answer
    case Resolves(after, value) =>
      if after <= timeout then Awaited(Fulfilled(value), after) else Awaited(Failed, timeout)
    case Rejects(after) => Awaited(Failed, if after <= timeout then after else timeout)
    case Hangs => Awaited(Failed, timeout)
  }

  datatype Provider = Plain | WithTransport

  /**
   * Everything the recovery asks of the outside, answered afresh at each of its steps, so that all
   * interleavings with wallets, other tasks and the page's own life are covered.
   */
  datatype World = World(
    provider: nat -> Answer<Provider>,
    restart: nat -> Answer<bool>,
    authorised: nat -> Answer<bool>,
    reconnect: nat -> Answer<bool>,
    current: nat -> bool,
    disposed: nat -> bool,
    visible: nat -> bool
  )

  // ----- What a recovery does -----

  /** The event at index `i` of a log happened at moment `i` of the world. */
  datatype Event =
    | Probe(c: Connector, ms: nat, found: Outcome<Provider>)
    | Restart(c: Connector, ms: nat)
    | Pause(round: nat, ms: nat)
    | Check(round: nat, c: Connector, ms: nat, authorised: bool)
    | Reconnect(c: Connector, ms: nat, recovered: bool)

  function Checks(log: seq<Event>): seq<Connector> {
    if log == [] then []
    else Checks(log[..|log| - 1]) + if log[|log| - 1].Check? then [log[|log| - 1].c] else []
  }

  function Reconnects(log: seq<Event>): nat {
    if log == [] then 0
    else Reconnects(log[..|log| - 1]) + if log[|log| - 1].Reconnect? then 1 else 0
  }

  function Waited(log: seq<Event>): nat {
    if log == [] then 0 else Waited(log[..|log| - 1]) + log[|log| - 1].ms
  }

  function Pauses(log: seq<Event>): seq<nat> {
    if log == [] then []
    else Pauses(log[..|log| - 1]) + if log[|log| - 1].Pause? then [log[|log| - 1].ms] else []
  }

  /** The connectors asked for their provider. */
  function Probed(log: seq<Event>): seq<Connector> {
    if log == [] then []
    else Probed(log[..|log| - 1]) + if log[|log| - 1].Probe? then [log[|log| - 1].c] else []
  }

  /** Those that gave one in time. */
  function Answering(log: seq<Event>): seq<Connector> {
    if log == [] then []
    else
      var e := log[|log| - 1];
      Answering(log[..|log| - 1]) + if e.Probe? && e.found.Fulfilled? then [e.c] else []
  }

  function Sum(delays: seq<nat>): nat {
    if delays == [] then 0 else Sum(delays[..|delays| - 1]) + delays[|delays| - 1]
  }

  /** The delays that are waited for at all. */
  function Positive(delays: seq<nat>): seq<nat> {
    if delays == [] then []
    else Positive(delays[..|delays| - 1]) + if delays[|delays| - 1] > 0 then [delays[|delays| - 1]] else []
  }

  lemma LogsGrow(log: seq<Event>, e: Event)
    ensures Checks(log + [e]) == Checks(log) + if e.Check? then [e.c] else []
    ensures Reconnects(log + [e]) == Reconnects(log) + if e.Reconnect? then 1 else 0
    ensures Waited(log + [e]) == Waited(log) + e.ms
    ensures Pauses(log + [e]) == Pauses(log) + if e.Pause? then [e.ms] else []
    ensures Probed(log + [e]) == Probed(log) + if e.Probe? then [e.c] else []
    ensures Answering(log + [e]) == Answering(log) + if e.Probe? && e.found.Fulfilled? then [e.c] else []
  {
    assert (log + [e])[..|log|] == log;
  }

  lemma SumStep(delays: seq<nat>, r: nat)
    requires r < |delays|
    ensures Sum(delays[..r + 1]) == Sum(delays[..r]) + delays[r]
    ensures Positive(delays[..r + 1]) == Positive(delays[..r]) + if delays[r] > 0 then [delays[r]] else []
  {
    assert delays[..r + 1][..r] == delays[..r];
  }

  lemma RoundPosition(r: nat, m: nat, j: nat)
    requires j < m
    ensures (r * m + j) % m == j
  {
    QuotientIs(r * m + j, m, r, j);
  }

  // ----- The rules of a recovery -----

  datatype Plan = Plan(candidates: seq<Connector>, delays: seq<nat>, timeout: nat)

  /** The page is gone, out of sight, or has a session. */
  ghost predicate Interrupted(world: World, t: nat) {
    world.disposed(t) || !world.visible(t) || world.current(t)
  }

  /** The last event calls for one more on the same connector. */
  predicate Due(log: seq<Event>) {
    log != [] &&
    var e := log[|log| - 1];
    (e.Probe? && e.found == Fulfilled(WithTransport)) || (e.Check? && e.authorised)
  }

  /** The last event completed the revival of a transport. */
  predicate Revived(log: seq<Event>) {
    log != [] && var e := log[|log| - 1]; e.Restart? || (e.Probe? && e.found == Fulfilled(Plain))
  }

  /** Nothing is left to do for the last connector, and it did not end the recovery. */
  ghost predicate Settled(world: World, log: seq<Event>) {
    && !Due(log)
    && (Revived(log) ==> !world.current(|log|))
    && (log != [] && log[|log| - 1].Reconnect? ==> !log[|log| - 1].recovered)
  }

  /** The delay of `round` is next. */
  ghost predicate AtDelay(plan: Plan, log: seq<Event>, round: nat) {
    && round < |plan.delays| && plan.delays[round] > 0
    && |Checks(log)| == round * |Answering(log)|
    && Pauses(log) == Positive(plan.delays[..round])
  }

  /** A check of `round` is next, after `round` full rounds and the delays up to this one. */
  ghost predicate AtCheck(plan: Plan, log: seq<Event>, round: nat) {
    && round < |plan.delays|
    && round * |Answering(log)| <= |Checks(log)| < round * |Answering(log)| + |Answering(log)|
    && Pauses(log) == Positive(plan.delays[..round + 1])
  }

  /** What may happen after `log`, and what the world then says. */
  ghost predicate Follows(world: World, plan: Plan, log: seq<Event>, e: Event) {
    var t := |log|;
    match e
    case Probe(c, ms, found) =>
      && Settled(world, log) && !world.disposed(t)
      && Probed(log) + [c] <= plan.candidates
      && Bounded(world.provider(t), plan.timeout) == Awaited(found, ms)
    case Restart(c, ms) =>
      && t > 0 && log[t - 1].Probe? && log[t - 1].c == c && log[t - 1].found == Fulfilled(WithTransport)
      && Bounded(world.restart(t), plan.timeout).ms == ms
    case Pause(round, ms) =>
      && Settled(world, log) && Probed(log) == plan.candidates
      && (round > 0 && Answering(log) == [] ==> !Interrupted(world, t))
      && AtDelay(plan, log, round) && ms == plan.delays[round]
    case Check(round, c, ms, authorised) =>
      && Settled(world, log) && Probed(log) == plan.candidates
      && AtCheck(plan, log, round)
      && var j := |Checks(log)| - round * |Answering(log)|;
      && c == Answering(log)[j] && (j == 0 ==> !Interrupted(world, t))
      && Bounded(world.authorised(t), plan.timeout).ms == ms
      && (authorised <==> Bounded(world.authorised(t), plan.timeout).outcome == Fulfilled(true))
    case Reconnect(c, ms, recovered) =>
      && t > 0 && log[t - 1].Check? && log[t - 1].c == c && log[t - 1].authorised
      && Bounded(world.reconnect(t), plan.timeout).ms == ms
      && (recovered <==> world.current(t + 1))
  }

  /**
   * Every event follows from those before it. In particular a wallet counts as authorised exactly if
   * it said so in time, only such a wallet is reconnected, and nothing follows a recovery.
   */
  ghost predicate Lawful(world: World, plan: Plan, log: seq<Event>) {
    forall i | 0 <= i < |log| :: Follows(world, plan, log[..i], log[i])
  }

  /** The delay of `round` is over, and none of its checks is made. */
  ghost predicate AtRound(plan: Plan, log: seq<Event>, round: nat) {
    && round < |plan.delays|
    && |Checks(log)| == round * |Answering(log)|
    && Pauses(log) == Positive(plan.delays[..round + 1])
  }

  /** The first phase stops on a disposed page or, with a transport revived, on one that has a session. */
  ghost predicate StopsPreparing(world: World, plan: Plan, log: seq<Event>) {
    || (Settled(world, log) && Probed(log) < plan.candidates && world.disposed(|log|))
    || (Revived(log) && world.current(|log|))
  }

  /** The polling ends with its last round, before a round on an interrupted page, or with a recovery. */
  ghost predicate StopsPolling(world: World, plan: Plan, log: seq<Event>) {
    || (log != [] && log[|log| - 1].Reconnect? && log[|log| - 1].recovered)
    || (&& Settled(world, log) && Probed(log) == plan.candidates
        && (|| (|Checks(log)| == |plan.delays| * |Answering(log)| && Pauses(log) == Positive(plan.delays))
            || (Interrupted(world, |log|) && exists round :: AtRound(plan, log, round))))
  }

  /** The recovery is over. */
  ghost predicate Ended(world: World, plan: Plan, log: seq<Event>) {
    StopsPreparing(world, plan, log) || StopsPolling(world, plan, log)
  }

  lemma LawfulStep(world: World, plan: Plan, log: seq<Event>, e: Event)
    requires Lawful(world, plan, log) && Follows(world, plan, log, e)
    ensures Lawful(world, plan, log + [e])
  {
    hide Follows;
    forall i | 0 <= i < |log + [e]|
      ensures Follows(world, plan, (log + [e])[..i], (log + [e])[i])
    {
      assert (log + [e])[..i] == log[..i];
      if i == |log| {
        assert log[..i] == log;
      }
    }
  }

  lemma PositiveGrows(delays: seq<nat>, r: nat, n: nat)
    requires r < n <= |delays| && delays[r] > 0
    ensures |Positive(delays[..r])| < |Positive(delays[..n])|
    decreases n - r
  {
    hide Positive;
    SumStep(delays, n - 1);
    if r < n - 1 {
      PositiveGrows(delays, r, n - 1);
    }
  }

  lemma DelaysAgree(plan: Plan, log: seq<Event>, r: nat, q: nat)
    requires AtDelay(plan, log, r) && AtDelay(plan, log, q)
    ensures r == q
  {
    hide Positive, Checks, Answering, Pauses;
    if r < q {
      PositiveGrows(plan.delays, r, q);
    } else if q < r {
      PositiveGrows(plan.delays, q, r);
    }
  }

  lemma RoundsAgree(n: nat, m: nat, r: nat, q: nat)
    requires r * m <= n < r * m + m && q * m <= n < q * m + m
    ensures r == q
  {
    QuotientIs(n, m, r, n - r * m);
    QuotientIs(n, m, q, n - q * m);
  }

  lemma ChecksAgree(plan: Plan, log: seq<Event>, r: nat, q: nat)
    requires AtCheck(plan, log, r) && (AtCheck(plan, log, q) || AtDelay(plan, log, q))
    ensures r == q && !AtDelay(plan, log, q)
  {
    hide Positive, Checks, Answering, Pauses;
    RoundsAgree(|Checks(log)|, |Answering(log)|, r, q);
    SumStep(plan.delays, r);
  }

  /** The rules leave no choice: the world determines what happens next. */
  lemma OneNextEvent(world: World, plan: Plan, log: seq<Event>, e: Event, f: Event)
    requires Follows(world, plan, log, e) && Follows(world, plan, log, f)
    ensures e == f
  {
    hide AtDelay, AtCheck, Interrupted, Bounded, Checks, Probed, Answering;
    match (e, f)
    case (Pause(r, _), Pause(q, _)) => DelaysAgree(plan, log, r, q);
    case (Check(r, _, _, _), Check(q, _, _, _)) => ChecksAgree(plan, log, r, q);
    case (Check(r, _, _, _), Pause(q, _)) => ChecksAgree(plan, log, r, q);
    case (Pause(q, _), Check(r, _, _, _)) => ChecksAgree(plan, log, r, q);
    case (Probe(_, _, _), Probe(_, _, _)) =>
      assert e.c == plan.candidates[|Probed(log)|] == f.c;
    case _ =>
  }

  /** Hence two lawful logs never part: one is a beginning of the other. */
  lemma {:induction false} LawfulLogsAgree(world: World, plan: Plan, log: seq<Event>, other: seq<Event>)
    requires Lawful(world, plan, log) && Lawful(world, plan, other) && |log| <= |other|
    ensures log <= other
  {
    hide Follows;
    if log != [] {
      var i := |log| - 1;
      var front := log[..i];
      assert forall k | 0 <= k < i :: front[..k] == log[..k] && front[k] == log[k];
      LawfulLogsAgree(world, plan, front, other);
      assert front == other[..i];
      OneNextEvent(world, plan, front, log[i], other[i]);
      assert log == front + [log[i]];
    }
  }

  lemma NoCheckAfterAll(n: nat, m: nat, rounds: nat, q: nat)
    requires q < rounds && n == rounds * m
    ensures n >= q * m + m
  {
    ScaleUp(q + 1, rounds, m);
  }

  lemma NothingAfterAllRounds(plan: Plan, log: seq<Event>, q: nat)
    requires |Checks(log)| == |plan.delays| * |Answering(log)| && Pauses(log) == Positive(plan.delays)
    ensures !AtDelay(plan, log, q) && !AtCheck(plan, log, q)
  {
    hide Positive, Checks, Answering, Pauses;
    if q < |plan.delays| {
      NoCheckAfterAll(|Checks(log)|, |Answering(log)|, |plan.delays|, q);
      assert plan.delays[..|plan.delays|] == plan.delays;
      if plan.delays[q] > 0 { PositiveGrows(plan.delays, q, |plan.delays|); }
    }
  }

  /** At the start of a round only its own checks can be next, or the delay of a later one if none are. */
  lemma OnlyThisRound(plan: Plan, log: seq<Event>, round: nat, q: nat)
    requires AtRound(plan, log, round)
    ensures AtCheck(plan, log, q) ==> q == round
    ensures AtDelay(plan, log, q) ==> q > 0 && Answering(log) == []
  {
    hide Positive, Checks, Answering, Pauses;
    var n, m := |Checks(log)|, |Answering(log)|;
    if AtCheck(plan, log, q) {
      RoundsAgree(n, m, round, q);
    }
    if AtDelay(plan, log, q) {
      if q <= round {
        PositiveGrows(plan.delays, q, round + 1);
      } else if m > 0 {
        RoundsAgree(n, m, round, q);
      }
    }
  }

  /** After an end the rules allow nothing more. */
  lemma NothingFollows(world: World, plan: Plan, log: seq<Event>, e: Event)
    requires Ended(world, plan, log)
    ensures !Follows(world, plan, log, e)
  {
    hide AtDelay, AtCheck, AtRound, Interrupted, Bounded, Checks, Probed, Answering, Pauses;
    if (e.Pause? || e.Check?) && Settled(world, log) && Probed(log) == plan.candidates {
      if Interrupted(world, |log|) && exists round :: AtRound(plan, log, round) {
        var round :| AtRound(plan, log, round);
        OnlyThisRound(plan, log, round, e.round);
        RoundStart(plan, log, round);
      } else if |Checks(log)| == |plan.delays| * |Answering(log)| && Pauses(log) == Positive(plan.delays) {
        NothingAfterAllRounds(plan, log, e.round);
      }
    }
  }

  lemma RoundStart(plan: Plan, log: seq<Event>, round: nat)
    requires AtRound(plan, log, round)
    ensures |Checks(log)| - round * |Answering(log)| == 0
  {}

  /** So the world determines the whole recovery: only one log follows the rules to an end. */
  lemma RecoveryIsDetermined(world: World, plan: Plan, log: seq<Event>, other: seq<Event>)
    requires Lawful(world, plan, log) && Ended(world, plan, log)
    requires Lawful(world, plan, other) && Ended(world, plan, other)
    ensures log == other
  {
    hide Follows, Ended;
    if |log| <= |other| {
      LawfulLogsAgree(world, plan, log, other);
      if |log| < |other| {
        assert other[..|log|] == log;
        NothingFollows(world, plan, log, other[|log|]);
      }
    } else {
      LawfulLogsAgree(world, plan, other, log);
      assert log[..|other|] == other;
      NothingFollows(world, plan, other, log[|other|]);
    }
  }

  /** A reconnect follows each check that found its connector authorised, and nothing else. */
  ghost predicate ReconnectsAreAuthorised(log: seq<Event>) {
    && (forall i | 0 <= i < |log| && log[i].Reconnect? ::
          i > 0 && log[i - 1].Check? && log[i - 1].c == log[i].c && log[i - 1].authorised)
    && (forall i | 0 <= i < |log| && log[i].Check? && log[i].authorised ::
          i + 1 < |log| && log[i + 1].Reconnect?)
  }

  /** The checks go round the prepared connectors in order. */
  ghost predicate RoundRobin(checks: seq<Connector>, prepared: seq<Connector>) {
    |prepared| > 0 ==> forall i | 0 <= i < |checks| :: checks[i] == prepared[i % |prepared|]
  }

  /** What a lawful log says to a reader who does not know the rules. */
  lemma LawfulMeans(world: World, plan: Plan, log: seq<Event>, i: nat)
    requires Lawful(world, plan, log) && i < |log|
    ensures log[i].Check? ==>
      (log[i].authorised <==> Bounded(world.authorised(i), plan.timeout).outcome == Fulfilled(true))
    ensures log[i].Reconnect? ==>
      && i > 0 && log[i - 1].Check? && log[i - 1].c == log[i].c
      && Bounded(world.authorised(i - 1), plan.timeout).outcome == Fulfilled(true)
    ensures log[i].Reconnect? && world.current(i + 1) ==> i == |log| - 1
    ensures log[i].Check? && i + 1 < |log| ==> (log[i + 1].Reconnect? <==> log[i].authorised)
  {
    assert Follows(world, plan, log[..i], log[i]);
    if i > 0 {
      assert Follows(world, plan, log[..i - 1], log[i - 1]);
    }
    if i + 1 < |log| {
      assert Follows(world, plan, log[..i + 1], log[i + 1]);
    }
  }

  // ----- The methods -----

  /** A check at moment `t`, and a reconnect exactly if it found the connector authorised. */
  ghost predicate IsPoll(world: World, timeout: nat, t: nat, events: seq<Event>, round: nat, c: Connector) {
    var asked := Bounded(world.authorised(t), timeout);
    var approved := asked.outcome == Fulfilled(true);
    events == [Check(round, c, asked.ms, approved)] +
      if approved then [Reconnect(c, Bounded(world.reconnect(t + 1), timeout).ms, world.current(t + 2))] else []
  }

  /** `recoverApprovedSession`: one check, and one reconnect if the wallet has approved. */
  method RecoverApprovedSession(world: World, timeout: nat, t: nat, round: nat, c: Connector)
    returns (recovered: bool, events: seq<Event>)
    ensures IsPoll(world, timeout, t, events, round, c)
    ensures recovered <==> |events| == 2 && world.current(t + 2)
  {
    var asked := Bounded(world.authorised(t), timeout);
    var approved := asked.outcome == Fulfilled(true);
    events := [Check(round, c, asked.ms, approved)];
    if !approved {
      return false, events;
    }
    var attempt := Bounded(world.reconnect(t + 1), timeout);
    recovered := world.current(t + 2);
    events := events + [Reconnect(c, attempt.ms, recovered)];
  }

  /** The log of a recovery whose candidates were all prepared. */
  ghost predicate Polling(world: World, plan: Plan, log: seq<Event>, prepared: seq<Connector>) {
    && Lawful(world, plan, log) && !Due(log)
    && Probed(log) == plan.candidates && Answering(log) == prepared
    && RoundRobin(Checks(log), prepared)
    && Reconnects(log) <= |Checks(log)|
    && ReconnectsAreAuthorised(log)
  }

  lemma NextInRound(checks: seq<Connector>, prepared: seq<Connector>, c: Connector)
    requires RoundRobin(checks, prepared) && |prepared| > 0 && c == prepared[|checks| % |prepared|]
    ensures RoundRobin(checks + [c], prepared)
  {}

  lemma AddAuthorised(world: World, timeout: nat, log: seq<Event>, events: seq<Event>, round: nat, c: Connector)
    requires ReconnectsAreAuthorised(log) && IsPoll(world, timeout, |log|, events, round, c)
    ensures ReconnectsAreAuthorised(log + events)
  {
    hide Bounded;
    var all, n := log + events, |log|;
    assert forall i | 0 <= i < n :: all[i] == log[i];
    assert all[n] == events[0] && (|events| == 2 ==> all[n + 1] == events[1]);
  }

  /** A poll follows the rules. */
  lemma PollIsLawful(world: World, plan: Plan, log: seq<Event>, events: seq<Event>, round: nat, c: Connector)
    requires Lawful(world, plan, log) && Settled(world, log) && Probed(log) == plan.candidates
    requires AtCheck(plan, log, round)
    requires var j := |Checks(log)| - round * |Answering(log)|;
      c == Answering(log)[j] && (j == 0 ==> !Interrupted(world, |log|))
    requires IsPoll(world, plan.timeout, |log|, events, round, c)
    ensures Lawful(world, plan, log + events) && !Due(log + events)
    ensures Settled(world, log + events) <==> !(|events| == 2 && world.current(|log| + 2))
    ensures Checks(log + events) == Checks(log) + [c] && Pauses(log + events) == Pauses(log)
    ensures Probed(log + events) == Probed(log) && Answering(log + events) == Answering(log)
    ensures Reconnects(log + events) <= Reconnects(log) + 1
    ensures Waited(log + events) <= Waited(log) + 2 * plan.timeout
  {
    hide AtCheck, Lawful, Interrupted, Checks, Reconnects, Waited, Pauses, Probed, Answering;
    LogsGrow(log, events[0]);
    LawfulStep(world, plan, log, events[0]);
    var one := log + [events[0]];
    if |events| == 2 {
      LogsGrow(one, events[1]);
      LawfulStep(world, plan, one, events[1]);
      assert log + events == one + [events[1]];
    } else {
      assert log + events == one;
    }
  }

  lemma PollRecovers(world: World, timeout: nat, log: seq<Event>, events: seq<Event>, round: nat, c: Connector)
    requires IsPoll(world, timeout, |log|, events, round, c)
    ensures |events| == 2 && world.current(|log| + 2) ==>
      (log + events)[|log| + 1].Reconnect? && (log + events)[|log| + 1].recovered
  {}

  /** One polling step keeps the accounts. */
  lemma PollStep(world: World, plan: Plan, log: seq<Event>, events: seq<Event>, prepared: seq<Connector>,
    round: nat, j: nat, delays: int)
    requires Polling(world, plan, log, prepared) && Settled(world, log)
    requires round < |plan.delays| && j < |prepared| && |Checks(log)| == round * |prepared| + j
    requires Pauses(log) == Positive(plan.delays[..round + 1]) && (j == 0 ==> !Interrupted(world, |log|))
    requires Waited(log) <= WaitBound(plan, |Checks(log)|, delays)
    requires IsPoll(world, plan.timeout, |log|, events, round, prepared[j])
    ensures Polling(world, plan, log + events, prepared)
    ensures Settled(world, log + events) <==> !(|events| == 2 && world.current(|log| + 2))
    ensures |events| == 2 && world.current(|log| + 2) ==>
      (log + events)[|log| + 1].Reconnect? && (log + events)[|log| + 1].recovered
    ensures |log + events| == |log| + |events|
    ensures |Checks(log + events)| == |Checks(log)| + 1 && Pauses(log + events) == Pauses(log)
    ensures Waited(log + events) <= WaitBound(plan, |Checks(log)| + 1, delays)
  {
    hide Checks, Waited, Pauses, Probed, Answering, Reconnects, Positive, Lawful, Settled, Due, Interrupted, WaitBound,
      RoundRobin, ReconnectsAreAuthorised, IsPoll;
    var c := prepared[j];
    PollIsLawful(world, plan, log, events, round, c);
    PollRecovers(world, plan.timeout, log, events, round, c);
    AddAuthorised(world, plan.timeout, log, events, round, c);
    RoundPosition(round, |prepared|, j);
    NextInRound(Checks(log), prepared, c);
    WaitBoundStep(plan, |Checks(log)|, delays);
  }

  lemma AddUnrelated(log: seq<Event>, e: Event)
    requires ReconnectsAreAuthorised(log) && !e.Reconnect? && !(e.Check? && e.authorised)
    ensures ReconnectsAreAuthorised(log + [e])
  {
    var all, n := log + [e], |log|;
    assert forall i | 0 <= i < n :: all[i] == log[i];
    assert all[n] == e;
  }

  lemma AddPause(world: World, plan: Plan, log: seq<Event>, prepared: seq<Connector>, round: nat)
    requires Polling(world, plan, log, prepared) && Settled(world, log)
    requires round < |plan.delays| && plan.delays[round] > 0
    requires |Checks(log)| == round * |prepared| && Pauses(log) == Positive(plan.delays[..round])
    requires round > 0 && prepared == [] ==> !Interrupted(world, |log|)
    ensures var longer := log + [Pause(round, plan.delays[round])];
      && Polling(world, plan, longer, prepared) && Settled(world, longer)
      && Checks(longer) == Checks(log) && Pauses(longer) == Positive(plan.delays[..round + 1])
      && Waited(longer) == Waited(log) + plan.delays[round]
  {
    hide Checks, Waited, Pauses, Probed, Answering, Reconnects, Positive, Lawful, Interrupted, RoundRobin;
    var e := Pause(round, plan.delays[round]);
    LogsGrow(log, e);
    AddUnrelated(log, e);
    SumStep(plan.delays, round);
    LawfulStep(world, plan, log, e);
    assert (log + [e])[|log|] == e;
    assert Checks(log + [e]) == Checks(log) && Reconnects(log + [e]) == Reconnects(log);
  }

  /** Events of the first phase: a bounded fetch of the provider, and a bounded restart of a transport. */
  ghost predicate IsRevival(world: World, timeout: nat, t: nat, events: seq<Event>, c: Connector) {
    var fetched := Bounded(world.provider(t), timeout);
    events == [Probe(c, fetched.ms, fetched.outcome)] +
      if fetched.outcome == Fulfilled(WithTransport) then [Restart(c, Bounded(world.restart(t + 1), timeout).ms)]
      else []
  }

  /** One candidate's provider is fetched and its transport restarted; `alive` if the fetch worked. */
  method ReviveTransport(world: World, timeout: nat, t: nat, c: Connector) returns (alive: bool, events: seq<Event>)
    ensures IsRevival(world, timeout, t, events, c)
    ensures alive <==> Bounded(world.provider(t), timeout).outcome.Fulfilled?
  {
    var fetched := Bounded(world.provider(t), timeout);
    events := [Probe(c, fetched.ms, fetched.outcome)];
    alive := fetched.outcome.Fulfilled?;
    if alive && fetched.outcome.value == WithTransport {
      var restarted := Bounded(world.restart(t + 1), timeout);
      events := events + [Restart(c, restarted.ms)];
    }
  }

  /** The log of a recovery that has polled nothing yet. */
  ghost predicate Preparing(world: World, plan: Plan, log: seq<Event>) {
    && Lawful(world, plan, log) && !Due(log)
    && Checks(log) == [] && Reconnects(log) == 0 && Pauses(log) == []
    && ReconnectsAreAuthorised(log) && (log == [] || !log[|log| - 1].Pause?)
  }

  lemma ProviderKinds(found: Outcome<Provider>)
    ensures found == Failed || found == Fulfilled(Plain) || found == Fulfilled(WithTransport)
  {
    match found
    case Fulfilled(Plain) =>
    case _ =>
  }

  /** A revival follows the rules. */
  lemma RevivalIsLawful(world: World, plan: Plan, log: seq<Event>, events: seq<Event>, c: Connector)
    requires Preparing(world, plan, log) && Settled(world, log) && !world.disposed(|log|)
    requires Probed(log) + [c] <= plan.candidates
    requires IsRevival(world, plan.timeout, |log|, events, c)
    ensures Preparing(world, plan, log + events)
    ensures var alive := Bounded(world.provider(|log|), plan.timeout).outcome.Fulfilled?;
      && (Settled(world, log + events) <==> (alive ==> !world.current(|log + events|)))
      && (alive ==> Revived(log + events))
      && Answering(log + events) == Answering(log) + if alive then [c] else []
    ensures Probed(log + events) == Probed(log) + [c]
    ensures Waited(log + events) <= Waited(log) + 2 * plan.timeout
  {
    hide ReconnectsAreAuthorised, Lawful, Checks, Reconnects, Waited, Pauses, Probed, Answering;
    LogsGrow(log, events[0]);
    ProviderKinds(events[0].found);
    AddUnrelated(log, events[0]);
    LawfulStep(world, plan, log, events[0]);
    var one := log + [events[0]];
    if |events| == 2 {
      LogsGrow(one, events[1]);
      AddUnrelated(one, events[1]);
      LawfulStep(world, plan, one, events[1]);
      assert log + events == one + [events[1]];
    } else {
      assert log + events == one && one[|log|] == events[0];
    }
  }

  /** `some` lists connectors of `all`, without repeats if `all` has none. */
  ghost predicate Selects(some: seq<Connector>, all: seq<Connector>) {
    && |some| <= |all|
    && (forall i | 0 <= i < |some| :: some[i] in all)
    && (NoDuplicates(all) ==> NoDuplicates(some))
  }

  lemma SelectsStep(some: seq<Connector>, all: seq<Connector>, k: nat)
    requires k < |all| && Selects(some, all[..k])
    ensures Selects(some, all[..k + 1]) && Selects(some + [all[k]], all[..k + 1])
  {
    assert all[..k + 1] == all[..k] + [all[k]];
    if NoDuplicates(all[..k + 1]) {
      assert forall i, j | 0 <= i < j < k :: all[..k][i] == all[..k + 1][i] && all[..k][j] == all[..k + 1][j];
      assert all[k] == all[..k + 1][k] && forall i | 0 <= i < k :: all[..k + 1][i] == all[..k][i];
    }
  }

  lemma SelectsAll(some: seq<Connector>, all: seq<Connector>, k: nat)
    requires k <= |all| && Selects(some, all[..k])
    ensures Selects(some, all)
  {
    if NoDuplicates(all) {
      assert forall i | 0 <= i < k :: all[..k][i] == all[i];
    }
  }

  lemma OneMoreTimesTwo(timeout: nat, k: nat)
    ensures 2 * timeout * (k + 1) == 2 * timeout * k + 2 * timeout
  {}

  /**
   * The first phase: revive transports, and list the connectors worth polling. Unless it stops, it asked
   * every candidate and lists exactly those whose provider answered; it stops only on a disposed page
   * or, with a transport revived, on a page that has a session.
   */
  method Prepare(world: World, plan: Plan) returns (prepared: seq<Connector>, log: seq<Event>, stopped: bool)
    ensures Selects(prepared, plan.candidates)
    ensures Preparing(world, plan, log)
    ensures Waited(log) <= 2 * plan.timeout * |plan.candidates|
    ensures Probed(log) <= plan.candidates && prepared <= Answering(log)
    ensures !stopped ==> Probed(log) == plan.candidates && prepared == Answering(log) && Settled(world, log)
    ensures stopped ==> StopsPreparing(world, plan, log)
  {
    var candidates := plan.candidates;
    hide Selects, Checks, Reconnects, Waited, Pauses, Probed, Answering, Preparing, Settled, Bounded, IsRevival;
    prepared, log, stopped := [], [], false;
    NothingYet(world, plan);
    for k := 0 to |candidates|
      invariant Selects(prepared, candidates[..k])
      invariant Preparing(world, plan, log) && Settled(world, log)
      invariant Probed(log) == candidates[..k] && prepared == Answering(log)
      invariant Waited(log) <= 2 * plan.timeout * k
      invariant !stopped
    {
      assert candidates[..k + 1] == candidates[..k] + [candidates[k]];
      SelectsStep(prepared, candidates, k);
      OneMoreTimesTwo(plan.timeout, k);
      MoreCandidates(plan.timeout, k, |candidates|);
      MoreCandidates(plan.timeout, k + 1, |candidates|);
      assert candidates[..k] < candidates;
      if world.disposed(|log|) {
        SelectsAll(prepared, candidates, k);
        stopped := true;
        return;
      }
      var alive, events := ReviveTransport(world, plan.timeout, |log|, candidates[k]);
      RevivalIsLawful(world, plan, log, events, candidates[k]);
      log := log + events;
      if !alive {
        continue;
      }
      if world.current(|log|) {
        SelectsAll(prepared, candidates, k);
        stopped := true;
        return;
      }
      prepared := prepared + [candidates[k]];
    }
    SelectsAll(prepared, candidates, |candidates|);
    assert candidates[..|candidates|] == candidates;
  }

  lemma NothingYet(world: World, plan: Plan)
    ensures Selects([], plan.candidates[..0])
    ensures Preparing(world, plan, []) && Settled(world, [])
    ensures Probed([]) == [] && Answering([]) == [] && Waited([]) == 0
  {}

  lemma MoreCandidates(timeout: nat, k: nat, n: nat)
    requires k <= n
    ensures 2 * timeout * k <= 2 * timeout * n
  {}

  /** The longest a recovery can wait: the delays, and two timeouts per candidate and per check. */
  function WaitBound(plan: Plan, checks: nat, delays: int): int {
    delays + 2 * plan.timeout * (|plan.candidates| + checks)
  }

  lemma WaitBoundGrows(plan: Plan, checks: nat, checks': nat, delays: int, delays': int)
    requires checks <= checks' && delays <= delays'
    ensures WaitBound(plan, checks, delays) <= WaitBound(plan, checks', delays')
  {
    MoreCandidates(plan.timeout, |plan.candidates| + checks, |plan.candidates| + checks');
  }

  lemma WaitBoundStep(plan: Plan, checks: nat, delays: int)
    ensures WaitBound(plan, checks + 1, delays) == WaitBound(plan, checks, delays) + 2 * plan.timeout
  {
    OneMoreTimesTwo(plan.timeout, |plan.candidates| + checks);
  }

  /**
   * Preparation and polling. The log follows the rules to an end, which determines it; it ends before
   * every round is complete only if the page is then disposed, hidden or has a session; and the waiting
   * is bounded.
   */
  method CarryOut(world: World, plan: Plan) returns (prepared: seq<Connector>, log: seq<Event>)
    ensures Lawful(world, plan, log) && Ended(world, plan, log)
    ensures Selects(prepared, plan.candidates) && prepared <= Answering(log)
    ensures !Interrupted(world, |log|) ==>
      && Probed(log) == plan.candidates && prepared == Answering(log)
      && |Checks(log)| == |plan.delays| * |prepared| && Pauses(log) == Positive(plan.delays)
    ensures RoundRobin(Checks(log), prepared) && ReconnectsAreAuthorised(log) && Reconnects(log) <= |Checks(log)|
    ensures |Checks(log)| <= |plan.delays| * |prepared|
    ensures Waited(log) <= WaitBound(plan, |plan.delays| * |prepared|, Sum(plan.delays))
  {
    hide Ended, StopsPreparing, StopsPolling, Interrupted, Selects, Preparing, Polling, Lawful, Due, Settled,
      Revived, RoundRobin, ReconnectsAreAuthorised, WaitBound, Checks, Reconnects, Waited, Pauses, Probed,
      Answering, Sum, Positive, IsPoll, Bounded;
    var stopped;
    prepared, log, stopped := Prepare(world, plan);
    StartPolling(world, plan, log, prepared, stopped);
    if stopped {
      return;
    }
    var m := |prepared|;
    for r := 0 to |plan.delays|
      invariant Polling(world, plan, log, prepared) && Settled(world, log) && |Checks(log)| == r * m
      invariant Pauses(log) == Positive(plan.delays[..r])
      invariant r > 0 && m == 0 ==> !Interrupted(world, |log|)
      invariant Waited(log) <= WaitBound(plan, r * m, Sum(plan.delays[..r]))
    {
      RoundBounds(plan, m, r);
      SumStep(plan.delays, r);
      if plan.delays[r] > 0 {
        AddPause(world, plan, log, prepared, r);
        log := log + [Pause(r, plan.delays[r])];
      }
      var t := |log|;
      ReasonsToStop(world, t);
      WhilePolling(world, plan, log, prepared);
      if world.disposed(t) || !world.visible(t) || world.current(t) {
        EndsBeforeRound(world, plan, log, prepared, r);
        return;
      }
      for j := 0 to m
        invariant Polling(world, plan, log, prepared) && Settled(world, log) && |Checks(log)| == r * m + j
        invariant Pauses(log) == Positive(plan.delays[..r + 1])
        invariant j == 0 ==> |log| == t
        invariant Waited(log) <= WaitBound(plan, r * m + j, Sum(plan.delays[..r + 1]))
      {
        var recovered, events := RecoverApprovedSession(world, plan.timeout, |log|, r, prepared[j]);
        PollStep(world, plan, log, events, prepared, r, j, Sum(plan.delays[..r + 1]));
        log := log + events;
        WhilePolling(world, plan, log, prepared);
        ReasonsToStop(world, |log|);
        if recovered {
          EndsRecovered(world, plan, log);
          StopEarly(plan, m, r, j + 1);
          return;
        }
      }
      assert r * m + m == (r + 1) * m;
    }
    WhilePolling(world, plan, log, prepared);
    assert plan.delays[..|plan.delays|] == plan.delays;
    EndsComplete(world, plan, log, prepared);
  }

  lemma EndsBeforeRound(world: World, plan: Plan, log: seq<Event>, prepared: seq<Connector>, round: nat)
    requires Polling(world, plan, log, prepared) && Settled(world, log) && Interrupted(world, |log|)
    requires round < |plan.delays| && |Checks(log)| == round * |prepared|
    requires Pauses(log) == Positive(plan.delays[..round + 1])
    ensures Ended(world, plan, log)
  {
    assert AtRound(plan, log, round);
  }

  lemma EndsRecovered(world: World, plan: Plan, log: seq<Event>)
    requires log != [] && log[|log| - 1].Reconnect? && log[|log| - 1].recovered
    ensures Ended(world, plan, log)
  {}

  lemma EndsComplete(world: World, plan: Plan, log: seq<Event>, prepared: seq<Connector>)
    requires Polling(world, plan, log, prepared) && Settled(world, log)
    requires |Checks(log)| == |plan.delays| * |prepared| && Pauses(log) == Positive(plan.delays)
    ensures Ended(world, plan, log)
  {}

  lemma ReasonsToStop(world: World, t: nat)
    ensures Interrupted(world, t) <==> world.disposed(t) || !world.visible(t) || world.current(t)
  {}

  lemma FirstCheckNeedsThePage(world: World, plan: Plan, log: seq<Event>, e: Event)
    requires Follows(world, plan, log, e) && Checks(log) == []
    ensures e.Check? ==> !Interrupted(world, |log|)
  {
    hide Settled, Bounded, Interrupted, Checks, Answering, Pauses, Probed, Positive;
    if e.Check? {
      ScaleUp(0, e.round, |Answering(log)|);
    }
  }

  /** A page that is disposed, hidden or has a session throughout is left alone. */
  lemma {:induction false} LeftAlone(world: World, plan: Plan, log: seq<Event>)
    requires Lawful(world, plan, log) && forall t: nat :: Interrupted(world, t)
    ensures Checks(log) == []
  {
    hide Interrupted, Follows;
    if log != [] {
      var i := |log| - 1;
      var front := log[..i];
      assert forall k | 0 <= k < i :: front[..k] == log[..k] && front[k] == log[k];
      LeftAlone(world, plan, front);
      FirstCheckNeedsThePage(world, plan, front, log[i]);
    }
  }

  lemma StartPolling(world: World, plan: Plan, log: seq<Event>, prepared: seq<Connector>, stopped: bool)
    requires Preparing(world, plan, log) && Waited(log) <= 2 * plan.timeout * |plan.candidates|
    requires !stopped ==> Probed(log) == plan.candidates && prepared == Answering(log) && Settled(world, log)
    requires stopped ==> StopsPreparing(world, plan, log)
    ensures stopped ==> Ended(world, plan, log) && Interrupted(world, |log|)
    ensures !stopped ==> Polling(world, plan, log, prepared)
    ensures Lawful(world, plan, log) && !Due(log) && Checks(log) == [] && Reconnects(log) == 0
    ensures RoundRobin(Checks(log), prepared) && ReconnectsAreAuthorised(log)
    ensures Pauses(log) == Positive(plan.delays[..0]) && (log != [] ==> !log[|log| - 1].Pause?)
    ensures Waited(log) <= WaitBound(plan, 0, Sum(plan.delays[..0]))
    ensures 0 <= |plan.delays| * |prepared|
    ensures Waited(log) <= WaitBound(plan, |plan.delays| * |prepared|, Sum(plan.delays))
  {
    hide Checks, Waited, Probed, Answering, Reconnects, Lawful, Settled, Due, Bounded;
    ScaleUp(0, |plan.delays|, |prepared|);
    WaitBoundGrows(plan, 0, |plan.delays| * |prepared|, 0, Sum(plan.delays));
  }

  /** What the caller of a recovery learns at any point of the polling. */
  lemma WhilePolling(world: World, plan: Plan, log: seq<Event>, prepared: seq<Connector>)
    requires Polling(world, plan, log, prepared)
    ensures Lawful(world, plan, log) && !Due(log) && prepared == Answering(log) && Probed(log) == plan.candidates
    ensures RoundRobin(Checks(log), prepared) && ReconnectsAreAuthorised(log) && Reconnects(log) <= |Checks(log)|
  {}

  lemma {:induction false} SumPrefix(delays: seq<nat>, r: nat)
    requires r <= |delays|
    ensures Sum(delays[..r]) <= Sum(delays)
    decreases |delays| - r
  {
    if r < |delays| {
      SumStep(delays, r);
      SumPrefix(delays, r + 1);
    } else {
      assert delays[..r] == delays;
    }
  }

  /** What the end of round `r` is worth against the bound for the whole recovery. */
  lemma StopEarly(plan: Plan, m: nat, r: nat, j: nat)
    requires r < |plan.delays| && j <= m
    ensures 0 <= r * m + j <= |plan.delays| * m
    ensures WaitBound(plan, r * m + j, Sum(plan.delays[..r + 1]))
      <= WaitBound(plan, |plan.delays| * m, Sum(plan.delays))
  {
    ScaleUp(0, r, m);
    ScaleUp(r + 1, |plan.delays|, m);
    assert (r + 1) * m == r * m + m;
    SumPrefix(plan.delays, r + 1);
    WaitBoundGrows(plan, r * m + j, |plan.delays| * m, Sum(plan.delays[..r + 1]), Sum(plan.delays));
  }

  lemma RoundBounds(plan: Plan, m: nat, r: nat)
    requires r < |plan.delays|
    ensures 0 <= r * m <= |plan.delays| * m
    ensures WaitBound(plan, r * m, Sum(plan.delays[..r])) + plan.delays[r]
      == WaitBound(plan, r * m, Sum(plan.delays[..r + 1]))
    ensures WaitBound(plan, r * m, Sum(plan.delays[..r + 1]))
      <= WaitBound(plan, |plan.delays| * m, Sum(plan.delays))
  {
    hide Sum;
    SumStep(plan.delays, r);
    StopEarly(plan, m, r, 0);
  }

  // ----- Fairness -----

  function CountOf(cs: seq<Connector>, c: Connector): nat {
    if cs == [] then 0 else CountOf(cs[..|cs| - 1], c) + if cs[|cs| - 1] == c then 1 else 0
  }

  lemma RoundRobinAt(checks: seq<Connector>, prepared: seq<Connector>, p: nat, j: nat)
    requires RoundRobin(checks, prepared) && NoDuplicates(prepared) && j < |prepared| && p < |checks|
    requires 0 <= p % |prepared| < |prepared|
    ensures checks[p] == prepared[j] <==> p % |prepared| == j
  {}

  /** Going round, the first n checks reach position j once per full round, and once more if it was passed. */
  lemma {:induction false} RoundRobinCount(checks: seq<Connector>, prepared: seq<Connector>, n: nat, j: nat)
    requires RoundRobin(checks, prepared) && NoDuplicates(prepared) && j < |prepared| && n <= |checks|
    ensures CountOf(checks[..n], prepared[j]) == n / |prepared| + (if j < n % |prepared| then 1 else 0)
  {
    hide RoundRobin, NoDuplicates;
    var m := |prepared|;
    if n == 0 {
      QuotientIs(0, m, 0, 0);
    } else {
      var p := n - 1;
      RoundRobinCount(checks, prepared, p, j);
      assert checks[..n][..p] == checks[..p];
      DivMod(p, m);
      RoundRobinAt(checks, prepared, p, j);
      if p % m + 1 < m {
        QuotientIs(n, m, p / m, p % m + 1);
      } else {
        assert (p / m + 1) * m == p / m * m + m;
        QuotientIs(n, m, p / m + 1, 0);
      }
    }
  }

  /** No connector is checked a further time before every prepared connector has been checked as often. */
  lemma ChecksAreFair(checks: seq<Connector>, prepared: seq<Connector>, n: nat, i: nat, j: nat)
    requires RoundRobin(checks, prepared) && NoDuplicates(prepared)
    requires i < |prepared| && j < |prepared| && n <= |checks|
    ensures CountOf(checks[..n], prepared[i]) <= CountOf(checks[..n], prepared[j]) + 1
  {
    RoundRobinCount(checks, prepared, n, i);
    RoundRobinCount(checks, prepared, n, j);
  }

  /** After any number of checks no connector has been checked twice more often than another. */
  ghost predicate Fair(checks: seq<Connector>, prepared: seq<Connector>) {
    forall n, i, j | 0 <= n <= |checks| && 0 <= i < |prepared| && 0 <= j < |prepared| ::
      CountOf(checks[..n], prepared[i]) <= CountOf(checks[..n], prepared[j]) + 1
  }

  /** The waiting stays within the bound for `m` prepared connectors. */
  ghost predicate WithinTime(plan: Plan, log: seq<Event>, m: nat) {
    ScaleUp(0, |plan.delays|, m);
    Waited(log) <= WaitBound(plan, |plan.delays| * m, Sum(plan.delays))
  }

  /** What a recovery is to do, from the connectors the page knows. */
  function PlanFor(
    connected: Option<Connector>, persisted: seq<Connector>, configured: seq<Connector>, delays: seq<nat>, timeout: nat)
    : Plan
  {
    Plan(Candidates(Considered(connected, persisted, configured)), delays, timeout)
  }

  /**
   * `wakeOnce`. From whatever connectors the page knows, the recovery follows the rules to an end,
   * asks only recoverable connectors, each once, and checks those that answered in fair turns.
   */
  method WakeOnce(
    world: World, connected: Option<Connector>, persisted: seq<Connector>, configured: seq<Connector>,
    delays: seq<nat>, timeout: nat)
    returns (prepared: seq<Connector>, log: seq<Event>)
    ensures var plan := PlanFor(connected, persisted, configured, delays, timeout);
      && Lawful(world, plan, log) && Ended(world, plan, log)
      && WithinTime(plan, log, |prepared|)
      && (!Interrupted(world, |log|) ==> prepared == Answering(log) && |Checks(log)| == |delays| * |prepared|)
    ensures NoDuplicates(prepared)
    ensures forall c | c in prepared ::
      CanRecover(c) && (connected == Some(c) || c in persisted || c in configured)
    ensures RoundRobin(Checks(log), prepared) && ReconnectsAreAuthorised(log) && Fair(Checks(log), prepared)
  {
    hide Lawful, Ended, Waited, WaitBound, Interrupted, Answering, Checks, Sum, RoundRobin, ReconnectsAreAuthorised,
      Candidates;
    var plan := PlanFor(connected, persisted, configured, delays, timeout);
    prepared, log := CarryOut(world, plan);
    CandidatesAre(Considered(connected, persisted, configured));
    assert forall c | c in prepared :: c in plan.candidates;
    FairIfRoundRobin(Checks(log), prepared);
  }

  lemma FairIfRoundRobin(checks: seq<Connector>, prepared: seq<Connector>)
    requires RoundRobin(checks, prepared) && NoDuplicates(prepared)
    ensures Fair(checks, prepared)
  {
    hide RoundRobin, NoDuplicates, CountOf;
    forall n, i, j | 0 <= n <= |checks| && 0 <= i < |prepared| && 0 <= j < |prepared|
      ensures CountOf(checks[..n], prepared[i]) <= CountOf(checks[..n], prepared[j]) + 1
    {
      ChecksAreFair(checks, prepared, n, i, j);
    }
  }

  // ----- Single flight -----

  /** A recovery begun by a wake, with its log so far. */
  datatype Recovery = Recovery(world: World, plan: Plan, log: seq<Event>)

  /** A page event, a step of the `k`-th running recovery, or its end. */
  datatype Signal =
    | Wake(visible: bool, ready: bool, world: World, plan: Plan)
    | Progress(k: nat, e: Event)
    | Finish(k: nat)
    | Dispose

  /** The two flags, with the recoveries that are running and those that have ended. */
  datatype Flight = Flight(waking: bool, disposed: bool, running: seq<Recovery>, over: seq<Recovery>)

  const GROUNDED := Flight(false, false, [], [])

  ghost function Advance(f: Flight, signal: Signal): Flight {
    match signal
    case Wake(visible, ready, world, plan) =>
      if f.disposed || !visible || !ready || f.waking then f
      else f.(waking := true, running := f.running + [Recovery(world, plan, [])])
    case Progress(k, e) =>
      if k < |f.running| && Follows(f.running[k].world, f.running[k].plan, f.running[k].log, e)
      then f.(running := f.running[k := f.running[k].(log := f.running[k].log + [e])])
      else f
    case Finish(k) =>
      if k < |f.running| && Ended(f.running[k].world, f.running[k].plan, f.running[k].log)
      then f.(waking := false, running := f.running[..k] + f.running[k + 1..], over := f.over + [f.running[k]])
      else f
    case Dispose => f.(disposed := true)
  }

  ghost function Fly(f: Flight, signals: seq<Signal>): Flight {
    if signals == [] then f else Advance(Fly(f, signals[..|signals| - 1]), signals[|signals| - 1])
  }

  /** The flag is up exactly while a recovery runs; every log follows the rules, and ended ones to an end. */
  ghost predicate OneAtMost(f: Flight) {
    && |f.running| == (if f.waking then 1 else 0)
    && (forall r | r in f.running :: Lawful(r.world, r.plan, r.log))
    && forall r | r in f.over :: Lawful(r.world, r.plan, r.log) && Ended(r.world, r.plan, r.log)
  }

  lemma AdvanceKeepsOne(f: Flight, signal: Signal)
    requires OneAtMost(f)
    ensures OneAtMost(Advance(f, signal))
  {
    hide Ended, Follows, Lawful;
    match signal
    case Wake(_, _, world, plan) => NothingIsLawful(world, plan);
    case Progress(k, e) =>
      if k < |f.running| && Follows(f.running[k].world, f.running[k].plan, f.running[k].log, e) {
        LawfulStep(f.running[k].world, f.running[k].plan, f.running[k].log, e);
      }
    case _ =>
  }

  lemma NothingIsLawful(world: World, plan: Plan)
    ensures Lawful(world, plan, [])
  {}

  /**
   * At most one recovery runs at any time, under every order of page events and of the steps of
   * recoveries, and every recovery that ends has followed the rules to an end.
   */
  lemma {:induction false} SingleFlight(signals: seq<Signal>)
    ensures OneAtMost(Fly(GROUNDED, signals))
  {
    if signals != [] {
      SingleFlight(signals[..|signals| - 1]);
      AdvanceKeepsOne(Fly(GROUNDED, signals[..|signals| - 1]), signals[|signals| - 1]);
    }
  }

  lemma FlyStep(f: Flight, signals: seq<Signal>, signal: Signal)
    ensures Fly(f, signals + [signal]) == Advance(Fly(f, signals), signal)
  {
    assert (signals + [signal])[..|signals|] == signals;
  }

  /**
   * Over every run: a wake begins a recovery, with an empty log, exactly on a visible and ready page
   * that is not disposed and has none running; any other wake changes nothing.
   */
  lemma WakeBeginsIff(signals: seq<Signal>, visible: bool, ready: bool, world: World, plan: Plan)
    ensures var f, g := Fly(GROUNDED, signals), Fly(GROUNDED, signals + [Wake(visible, ready, world, plan)]);
      && (visible && ready && !f.disposed && f.running == [] ==>
            g.running == [Recovery(world, plan, [])] && g.over == f.over && !g.disposed)
      && (!visible || !ready || f.disposed || f.running != [] ==> g == f)
  {
    hide Fly;
    SingleFlight(signals);
    FlyStep(GROUNDED, signals, Wake(visible, ready, world, plan));
  }

  /** A running recovery goes on as the rules say, and ends, leaving room for the next, once they allow no more. */
  lemma RecoveryGoesOn(signals: seq<Signal>, r: Recovery, e: Event)
    requires Fly(GROUNDED, signals).running == [r]
    ensures var g := Fly(GROUNDED, signals + [Progress(0, e)]);
      g.running == [if Follows(r.world, r.plan, r.log, e) then r.(log := r.log + [e]) else r]
    ensures var f, g := Fly(GROUNDED, signals), Fly(GROUNDED, signals + [Finish(0)]);
      if Ended(r.world, r.plan, r.log) then g.running == [] && g.over == f.over + [r] else g == f
  {
    hide Fly, Follows, Ended;
    FlyStep(GROUNDED, signals, Progress(0, e));
    FlyStep(GROUNDED, signals, Finish(0));
  }

  /** The page is disposed exactly once it was told so. */
  lemma {:induction false} DisposedIff(signals: seq<Signal>)
    ensures Fly(GROUNDED, signals).disposed <==> exists i | 0 <= i < |signals| :: signals[i] == Dispose
  {
    hide Follows, Ended;
    if signals != [] {
      var front, last := signals[..|signals| - 1], signals[|signals| - 1];
      DisposedIff(front);
      assert signals == front + [last];
    }
  }

  /** Once disposed, no recovery begins, whatever events still arrive. */
  lemma {:induction false} NoneAfterDispose(f: Flight, signals: seq<Signal>)
    requires f.disposed
    ensures var r := Fly(f, signals);
      r.disposed && |r.running| + |r.over| == |f.running| + |f.over|
  {
    hide Follows, Ended;
    if signals != [] { NoneAfterDispose(f, signals[..|signals| - 1]); }
  }

  /** The closure's flags. */
  class Revival {
    var waking: bool
    var disposed: bool
    ghost var running: seq<Recovery>
    ghost var over: seq<Recovery>

    ghost function Abstract(): Flight
      reads this
    {
      Flight(waking, disposed, running, over)
    }

    constructor ()
      ensures Abstract() == GROUNDED
    {
      waking, disposed, running, over := false, false, [], [];
    }

    /** `wake`: whether this call begins a recovery. */
    method OnWake(visible: bool, ready: bool, ghost world: World, ghost plan: Plan) returns (begins: bool)
      modifies this
      ensures Abstract() == Advance(old(Abstract()), Wake(visible, ready, world, plan))
      ensures begins <==> !old(disposed) && !old(waking) && visible && ready
      ensures running == old(running) + if begins then [Recovery(world, plan, [])] else []
    {
      begins := false;
      if disposed || !visible || !ready { return; }
      if !waking {
        waking, running, begins := true, running + [Recovery(world, plan, [])], true;
      }
    }

    /** The recovery's `finally` step. */
    method OnFinish(ghost k: nat)
      requires k < |running| && Ended(running[k].world, running[k].plan, running[k].log)
      modifies this
      ensures Abstract() == Advance(old(Abstract()), Finish(k))
    {
      waking, over, running := false, over + [running[k]], running[..k] + running[k + 1..];
    }

    method OnDispose()
      modifies this
      ensures Abstract() == Advance(old(Abstract()), Dispose)
    {
      disposed := true;
    }
  }
}
