/** The single-use nonce cached ahead of a wallet signature, across its asynchronous steps. */
module SiweNonceCache {
  import opened Texts

  /** Milliseconds a cached nonce must still have, and the time a request is kept before it answers. */
  const MARGIN_MS: int := 30_000
  const REQUEST_MS: int := 9 * 60_000

  type Nonce = int

  datatype Status = Pending | Resolved(nonce: Nonce) | Rejected

  /** A cache entry with its request; the entry's number stands for the identity of its promise. */
  datatype Entry = Entry(key: Text, expiresAt: Option<int>, status: Status)

  datatype Outcome = Running | Returned(nonce: Nonce) | Failed

  /** One `takeSiweNonce`: the entry it awaits, and the takes still running when it began. */
  datatype Take = Take(key: Text, entry: nat, outcome: Outcome, alongside: set<nat>)

  datatype Action =
    | Prepare(key: Text, now: int)
    | ServerResolves(entry: nat, nonce: Nonce, expiresAt: Option<int>)
    | ServerRejects(entry: nat)
    | BeginTake(key: Text, now: int)
    | EndTake(take: nat)

  /** The cached entry if any, every entry ever made, and every take. */
  datatype State = State(current: Option<nat>, entries: seq<Entry>, takes: seq<Take>)

  const INITIAL := State(None, [], [])

  /** The cached entry answers for `key` and is not about to expire. An unreadable expiry never is. */
  predicate Hit(s: State, key: Text, now: int) {
    && s.current.Some? && s.current.value < |s.entries|
    && var cached := s.entries[s.current.value];
       cached.key == key && cached.expiresAt.Some? && cached.expiresAt.value > now + MARGIN_MS
  }

  /** `prepareSiweNonce`: afterwards the cached entry is the one whose promise is returned. */
  function Prepared(s: State, key: Text, now: int): State {
    if Hit(s, key, now) then s
    else s.(current := Some(|s.entries|), entries := s.entries + [Entry(key, Some(now + REQUEST_MS), Pending)])
  }

  function RunningTakes(takes: seq<Take>): set<nat> {
    set k: nat | k < |takes| && takes[k].outcome.Running?
  }

  /** What one step does; a step whose turn cannot come leaves everything as it is. */
  function Step(s: State, action: Action): State {
    match action
    case Prepare(key, now) => Prepared(s, key, now)
    case ServerResolves(e, nonce, expiresAt) =>
      if e < |s.entries| && s.entries[e].status.Pending?
      then s.(entries := s.entries[e := s.entries[e].(expiresAt := expiresAt, status := Resolved(nonce))])
      else s
    case ServerRejects(e) =>
      if e < |s.entries| && s.entries[e].status.Pending?
      then s.(entries := s.entries[e := s.entries[e].(status := Rejected)],
              current := if s.current == Some(e) then None else s.current)
      else s
    case BeginTake(key, now) =>
      var p := Prepared(s, key, now);
      p.(takes := p.takes + [Take(key, p.current.value, Running, RunningTakes(p.takes))])
    case EndTake(k) =>
      if k < |s.takes| && s.takes[k].outcome.Running? && s.takes[k].entry < |s.entries| then
        var e := s.takes[k].entry;
        match s.entries[e].status
        case Pending => s
        case Rejected => s.(takes := s.takes[k := s.takes[k].(outcome := Failed)])
        case Resolved(nonce) =>
          s.(takes := s.takes[k := s.takes[k].(outcome := Returned(nonce))],
             current := if s.current == Some(e) then None else s.current)
      else s
  }

  function Run(actions: seq<Action>): State {
    if actions == [] then INITIAL else Step(Run(actions[..|actions| - 1]), actions[|actions| - 1])
  }

  // ----- What every interleaving keeps -----

  ghost predicate Invariant(s: State) {
    && (s.current.Some? ==>
          s.current.value == |s.entries| - 1 && !s.entries[s.current.value].status.Rejected?)
    && (forall k | 0 <= k < |s.takes| :: TakeSound(s, k))
    && (forall k, l | 0 <= k < l < |s.takes| && s.takes[k].entry == s.takes[l].entry ::
          k in s.takes[l].alongside)
  }

  /** A take awaits an entry of its own key, returns that entry's nonce, and then leaves it uncached. */
  ghost predicate TakeSound(s: State, k: nat)
    requires k < |s.takes|
  {
    var take := s.takes[k];
    && take.entry < |s.entries| && s.entries[take.entry].key == take.key
    && (take.outcome.Returned? ==> s.entries[take.entry].status == Resolved(take.outcome.nonce))
    && (!take.outcome.Running? ==> s.current != Some(take.entry))
  }

  lemma PreparedKeeps(s: State, key: Text, now: int)
    requires Invariant(s)
    ensures var p := Prepared(s, key, now);
      && Invariant(p) && p.takes == s.takes
      && p.current.Some? && p.entries[p.current.value].key == key
  {
    var p := Prepared(s, key, now);
    forall k | 0 <= k < |p.takes|
      ensures TakeSound(p, k)
    {
      assert TakeSound(s, k);
    }
  }

  lemma BeginTakeKeeps(s: State, key: Text, now: int)
    requires Invariant(s)
    ensures Invariant(Step(s, BeginTake(key, now)))
  {
    PreparedKeeps(s, key, now);
    var p, r := Prepared(s, key, now), Step(s, BeginTake(key, now));
    forall k | 0 <= k < |r.takes|
      ensures TakeSound(r, k)
      ensures k < |p.takes| && r.takes[k].entry == r.takes[|p.takes|].entry ==> k in r.takes[|p.takes|].alongside
    {
      if k < |p.takes| { assert TakeSound(p, k) && r.takes[k] == p.takes[k]; }
    }
  }

  lemma EndTakeKeeps(s: State, k: nat)
    requires Invariant(s)
    ensures Invariant(Step(s, EndTake(k)))
  {
    var r := Step(s, EndTake(k));
    forall l | 0 <= l < |r.takes|
      ensures TakeSound(r, l)
    {
      assert TakeSound(s, l);
      if r != s && s.entries[s.takes[k].entry].status.Rejected? && l == k {
        assert s.current != Some(s.takes[k].entry);
      }
    }
  }

  lemma ServerKeeps(s: State, action: Action)
    requires Invariant(s) && (action.ServerResolves? || action.ServerRejects?)
    ensures Invariant(Step(s, action))
  {
    var r := Step(s, action);
    forall k | 0 <= k < |r.takes|
      ensures TakeSound(r, k)
    {
      assert TakeSound(s, k);
    }
  }

  /** Every interleaving of preparations, answers and takes, overlapping or not, keeps the invariant. */
  lemma {:induction false} RunKeepsInvariant(actions: seq<Action>)
    ensures Invariant(Run(actions))
  {
    if actions != [] {
      var s, last := Run(actions[..|actions| - 1]), actions[|actions| - 1];
      RunKeepsInvariant(actions[..|actions| - 1]);
      match last
      case Prepare(key, now) => PreparedKeeps(s, key, now);
      case BeginTake(key, now) => BeginTakeKeeps(s, key, now);
      case EndTake(k) => EndTakeKeeps(s, k);
      case _ => ServerKeeps(s, last);
    }
  }

  // ----- Single use -----

  /** The server never issues one nonce to two requests. */
  ghost predicate DistinctNonces(s: State) {
    forall d, e | 0 <= d < e < |s.entries| && s.entries[d].status.Resolved? && s.entries[e].status.Resolved? ::
      s.entries[d].status.nonce != s.entries[e].status.nonce
  }

  /** Two takes return one nonce only if the second began while the first was still running. */
  lemma SharedNonceMeansOverlap(actions: seq<Action>, k: nat, l: nat)
    requires var s := Run(actions);
      && DistinctNonces(s) && k < l < |s.takes|
      && s.takes[k].outcome.Returned? && s.takes[l].outcome == s.takes[k].outcome
    ensures k in Run(actions).takes[l].alongside
  {
    var s := Run(actions);
    RunKeepsInvariant(actions);
    assert TakeSound(s, k) && TakeSound(s, l);
  }

  /** No take began while another was running, as the disabled button ensures. */
  ghost predicate OneAtATime(s: State) {
    forall l | 0 <= l < |s.takes| :: s.takes[l].alongside == {}
  }

  /** With one take at a time no nonce is returned twice. */
  lemma NoncesAreSingleUse(actions: seq<Action>)
    requires DistinctNonces(Run(actions)) && OneAtATime(Run(actions))
    ensures var takes := Run(actions).takes;
      forall k, l | 0 <= k < l < |takes| && takes[k].outcome.Returned? :: takes[l].outcome != takes[k].outcome
  {
    var takes := Run(actions).takes;
    forall k, l | 0 <= k < l < |takes| && takes[k].outcome.Returned?
      ensures takes[l].outcome != takes[k].outcome
    {
      if takes[l].outcome == takes[k].outcome { SharedNonceMeansOverlap(actions, k, l); }
    }
  }

  /** Two finished takes return one nonce exactly if they awaited one entry. */
  lemma SharedNonceIff(actions: seq<Action>, k: nat, l: nat)
    requires var s := Run(actions);
      && DistinctNonces(s) && k < |s.takes| && l < |s.takes|
      && s.takes[k].outcome.Returned? && s.takes[l].outcome.Returned?
    ensures var takes := Run(actions).takes;
      takes[k].outcome == takes[l].outcome <==> takes[k].entry == takes[l].entry
  {
    RunKeepsInvariant(actions);
    assert TakeSound(Run(actions), k) && TakeSound(Run(actions), l);
  }

  /**
   * A new take shares the entry of an earlier one exactly if that entry is still cached, answers for
   * the new key and is not about to expire; the earlier take is then still running.
   */
  lemma BeginSharesIff(actions: seq<Action>, key: Text, now: int, k: nat)
    requires k < |Run(actions).takes|
    ensures var s := Run(actions);
      var r := Step(s, BeginTake(key, now));
      && |r.takes| == |s.takes| + 1
      && (r.takes[|s.takes|].entry == s.takes[k].entry <==>
            s.current == Some(s.takes[k].entry) && Hit(s, key, now))
      && (s.current == Some(s.takes[k].entry) ==> s.takes[k].outcome.Running?)
  {
    RunKeepsInvariant(actions);
    assert TakeSound(Run(actions), k);
  }

  /** The action begins a take that joins one already awaiting the cached entry. */
  ghost predicate Joins(s: State, action: Action) {
    action.BeginTake? && Hit(s, action.key, action.now)
    && exists k :: 0 <= k < |s.takes| && s.current == Some(s.takes[k].entry)
  }

  ghost predicate OwnEntries(takes: seq<Take>) {
    forall k, l | 0 <= k < l < |takes| :: takes[k].entry != takes[l].entry
  }

  lemma StepKeepsEntries(s: State, action: Action)
    requires !action.BeginTake?
    ensures OwnEntries(Step(s, action).takes) <==> OwnEntries(s.takes)
  {
    var before, after := s.takes, Step(s, action).takes;
    assert |after| == |before| && forall k | 0 <= k < |before| :: after[k].entry == before[k].entry;
  }

  lemma BeginKeepsEntriesIff(actions: seq<Action>, key: Text, now: int)
    ensures var s := Run(actions);
      OwnEntries(Step(s, BeginTake(key, now)).takes) <==> OwnEntries(s.takes) && !Joins(s, BeginTake(key, now))
  {
    hide Hit, Run;
    var s := Run(actions);
    var r, n := Step(s, BeginTake(key, now)), |s.takes|;
    assert forall k | 0 <= k < n :: r.takes[k] == s.takes[k];
    forall k | 0 <= k < n
      ensures r.takes[n].entry == r.takes[k].entry <==> s.current == Some(s.takes[k].entry) && Hit(s, key, now)
    {
      BeginSharesIff(actions, key, now, k);
    }
  }

  /** The take that action `i` begins joins another. */
  ghost predicate JoinsAt(actions: seq<Action>, i: nat)
    requires i < |actions|
  {
    Joins(Run(actions[..i]), actions[i])
  }

  ghost predicate NoneJoins(actions: seq<Action>) {
    forall i | 0 <= i < |actions| :: !JoinsAt(actions, i)
  }

  lemma NoneJoinsStep(before: seq<Action>, last: Action)
    ensures NoneJoins(before + [last]) <==> NoneJoins(before) && !Joins(Run(before), last)
  {
    hide Joins, Run;
    var actions, n := before + [last], |before|;
    assert forall i | 0 <= i < n :: before[..i] == actions[..i] && before[i] == actions[i];
    assert forall i | 0 <= i < n :: JoinsAt(actions, i) == JoinsAt(before, i);
    assert actions[..n] == before && actions[n] == last;
    assert JoinsAt(actions, n) == Joins(Run(before), last);
  }

  /** Over every run: each take awaits an entry of its own if and only if no take ever joined another. */
  lemma {:induction false} OwnEntriesIff(actions: seq<Action>)
    ensures OwnEntries(Run(actions).takes) <==> NoneJoins(actions)
  {
    hide OwnEntries, Joins, NoneJoins, Step;
    if actions == [] {
      NoTakesYet();
    } else {
      var n := |actions| - 1;
      var before, last := actions[..n], actions[n];
      assert actions == before + [last];
      OwnEntriesIff(before);
      NoneJoinsStep(before, last);
      if last.BeginTake? {
        BeginKeepsEntriesIff(before, last.key, last.now);
      } else {
        StepKeepsEntries(Run(before), last);
        OnlyTakesJoin(Run(before), last);
      }
    }
  }

  lemma NoTakesYet()
    ensures OwnEntries(Run([]).takes) && NoneJoins([])
  {}

  lemma OnlyTakesJoin(s: State, action: Action)
    requires !action.BeginTake?
    ensures !Joins(s, action)
  {}

  /** As long as none does, no nonce is returned twice, however the takes overlap. */
  lemma SingleUseUnlessJoined(actions: seq<Action>, k: nat, l: nat)
    requires DistinctNonces(Run(actions)) && NoneJoins(actions) && k < l < |Run(actions).takes|
    requires Run(actions).takes[k].outcome.Returned?
    ensures Run(actions).takes[l].outcome != Run(actions).takes[k].outcome
  {
    hide NoneJoins, Run, DistinctNonces;
    OwnEntriesIff(actions);
    if Run(actions).takes[l].outcome.Returned? {
      SharedNonceIff(actions, k, l);
    }
  }

  /** Two takes for one key, the second begun before the answer, do share a nonce. */
  lemma OverlapSharesNonce(key: Text, now: int, nonce: Nonce)
    ensures var actions :=
        [BeginTake(key, now), BeginTake(key, now), ServerResolves(0, nonce, None), EndTake(0), EndTake(1)];
      var takes := Run(actions).takes;
      DistinctNonces(Run(actions)) && |takes| == 2 &&
      takes[0].outcome == Returned(nonce) && takes[1].outcome == Returned(nonce)
  {
    var a, b, c := BeginTake(key, now), BeginTake(key, now), ServerResolves(0, nonce, None);
    var d, e := EndTake(0), EndTake(1);
    assert [a, b, c, d, e][..4] == [a, b, c, d] && [a, b, c, d][..3] == [a, b, c] && [a, b, c][..2] == [a, b];
    assert [a, b][..1] == [a] && [a][..0] == [];
    assert Run([a]) == Step(INITIAL, a);
    assert Run([a, b]) == Step(Run([a]), b);
    assert Run([a, b, c]) == Step(Run([a, b]), c);
    assert Run([a, b, c, d]) == Step(Run([a, b, c]), d);
    assert Run([a, b, c, d, e]) == Step(Run([a, b, c, d]), e);
  }

  /** A returned nonce was issued to a request made for the very key it was taken for. */
  lemma ReturnedForItsKey(actions: seq<Action>, k: nat)
    requires k < |Run(actions).takes| && Run(actions).takes[k].outcome.Returned?
    ensures var s := Run(actions);
      exists e | 0 <= e < |s.entries| ::
        s.entries[e].key == s.takes[k].key && s.entries[e].status == Resolved(s.takes[k].outcome.nonce)
  {
    RunKeepsInvariant(actions);
    assert TakeSound(Run(actions), k);
  }

  /** The server's answer to request `e` that left the entry as it is. */
  ghost predicate AnsweredAs(actions: seq<Action>, i: int, e: nat, entry: Entry) {
    0 <= i < |actions| && entry.status.Resolved? &&
    actions[i] == ServerResolves(e, entry.status.nonce, entry.expiresAt)
  }

  /**
   * A resolved entry holds a nonce the server issued to that very request, and expires when the
   * server said: nothing later moves either.
   */
  lemma {:induction false} ResolvedByServer(actions: seq<Action>, e: nat)
    requires e < |Run(actions).entries| && Run(actions).entries[e].status.Resolved?
    ensures exists i :: AnsweredAs(actions, i, e, Run(actions).entries[e])
  {
    var last := |actions| - 1;
    var s, entry := Run(actions[..last]), Run(actions).entries[e];
    if e < |s.entries| && s.entries[e] == entry {
      ResolvedByServer(actions[..last], e);
      var i :| AnsweredAs(actions[..last], i, e, entry);
      assert AnsweredAs(actions, i, e, entry);
    } else {
      assert AnsweredAs(actions, last, e, entry);
    }
  }

  /**
   * The end of a take: it returns the nonce of its entry or fails as the request did, other takes and all
   * entries stay, and the cache is emptied exactly if it still held that entry and the nonce is used up.
   */
  lemma EndTakeIsLocal(actions: seq<Action>, k: nat)
    requires k < |Run(actions).takes| && Run(actions).takes[k].outcome == Running
    ensures var s, r := Run(actions), Step(Run(actions), EndTake(k));
      && s.takes[k].entry < |s.entries|
      && var status := s.entries[s.takes[k].entry].status;
      && r.entries == s.entries && |r.takes| == |s.takes|
      && (forall l | 0 <= l < |s.takes| && l != k :: r.takes[l] == s.takes[l])
      && r.takes[k] == s.takes[k].(outcome := r.takes[k].outcome)
      && (status == Pending ==> r == s)
      && (status == Rejected ==> r.takes[k].outcome == Failed)
      && (status.Resolved? ==> r.takes[k].outcome == Returned(status.nonce))
      && (r.current != s.current <==> status.Resolved? && s.current == Some(s.takes[k].entry))
      && (r.current != s.current ==> r.current == None)
  {
    RunKeepsInvariant(actions);
    assert TakeSound(Run(actions), k);
  }

  /** A finished take never ends again. */
  lemma EndsOnce(actions: seq<Action>, k: nat)
    requires k < |Run(actions).takes| ==> Run(actions).takes[k].outcome != Running
    ensures Step(Run(actions), EndTake(k)) == Run(actions)
  {}

  /** An answer settles its own pending request and changes nothing else; a settled one cannot be answered. */
  lemma AnswerIsLocal(actions: seq<Action>, e: nat, nonce: Nonce, expiresAt: Option<int>)
    ensures var s, r := Run(actions), Step(Run(actions), ServerResolves(e, nonce, expiresAt));
      && r.takes == s.takes && r.current == s.current && |r.entries| == |s.entries|
      && forall d | 0 <= d < |s.entries| :: r.entries[d] ==
           if d == e && s.entries[d].status == Pending then Entry(s.entries[d].key, expiresAt, Resolved(nonce))
           else s.entries[d]
  {}

  /** A rejected request is never left cached, and a rejection never evicts another entry. */
  lemma RejectionIsLocal(actions: seq<Action>, e: nat)
    ensures var s, r := Run(actions), Step(Run(actions), ServerRejects(e));
      && (r.current.Some? ==> r.current.value < |r.entries| && !r.entries[r.current.value].status.Rejected?)
      && (s.current != Some(e) ==> r.current == s.current)
      && (e < |s.entries| && s.entries[e].status.Pending? ==> r.current != Some(e))
      && r.takes == s.takes && |r.entries| == |s.entries|
      && forall d | 0 <= d < |s.entries| :: r.entries[d] ==
           if d == e && s.entries[d].status == Pending then s.entries[d].(status := Rejected) else s.entries[d]
  {
    RunKeepsInvariant(actions);
    ServerKeeps(Run(actions), ServerRejects(e));
  }

  /** A take awaits a new request, or a cached one with more than the margin left. */
  lemma TakeAwaitsFreshEntry(actions: seq<Action>, key: Text, now: int)
    ensures var s, r := Run(actions), Step(Run(actions), BeginTake(key, now));
      var e := r.takes[|s.takes|].entry;
      && e < |r.entries| && r.entries[e].key == key && r.current == Some(e)
      && (e < |s.entries| ==>
            r.entries[e].expiresAt.Some? && r.entries[e].expiresAt.value > now + 30_000)
      && (e == |s.entries| ==> r.entries[e] == Entry(key, Some(now + 540_000), Pending))
  {
    RunKeepsInvariant(actions);
    PreparedKeeps(Run(actions), key, now);
  }

  /**
   * A nonce requested ahead of the tap is the one the take awaits, with no second request, as long
   * as the tap comes before the request's own time less the margin is up.
   */
  lemma PreparedNonceIsTaken(actions: seq<Action>, key: Text, prepared: int, tapped: int)
    requires !Hit(Run(actions), key, prepared) && tapped + 30_000 < prepared + 540_000
    ensures var s := Run(actions);
      var r := Step(Step(s, Prepare(key, prepared)), BeginTake(key, tapped));
      && |r.entries| == |s.entries| + 1 && r.takes[|s.takes|].entry == |s.entries|
      && r.entries[|s.entries|] == Entry(key, Some(prepared + 540_000), Pending)
  {}

  // ----- The ref and its entries -----

  /** A request in flight or answered; its object identity is the identity of its promise. */
  class CachedNonce {
    const key: Text
    var expiresAt: Option<int>
    var status: Status

    constructor (key: Text, expiresAt: int)
      ensures this.key == key && this.expiresAt == Some(expiresAt) && status == Pending
    {
      this.key, this.expiresAt, status := key, Some(expiresAt), Pending;
    }
  }

  class NonceCache {
    var siweNonce: CachedNonce?
    ghost var made: seq<CachedNonce>
    ghost var takes: seq<Take>

    ghost function Abstract(): State
      reads this, made
    {
      State(if siweNonce == null then None else Some(if made == [] then 0 else |made| - 1),
            seq(|made|, i requires 0 <= i < |made| reads this, made =>
              Entry(made[i].key, made[i].expiresAt, made[i].status)),
            takes)
    }

    ghost predicate Valid()
      reads this, made
    {
      && Invariant(Abstract())
      && (siweNonce != null ==> made != [] && siweNonce == made[|made| - 1])
      && forall i, j | 0 <= i < j < |made| :: made[i] != made[j]
    }

    constructor ()
      ensures Valid() && Abstract() == INITIAL
    {
      siweNonce, made, takes := null, [], [];
      new;
      assert Abstract() == INITIAL;
      RunKeepsInvariant([]);
    }

    method PrepareSiweNonce(key: Text, now: int) returns (entry: CachedNonce)
      requires Valid()
      modifies this
      ensures Valid() && Abstract() == Step(old(Abstract()), Prepare(key, now))
      ensures entry == siweNonce && (entry in old(made) || fresh(entry)) && takes == old(takes)
    {
      PreparedKeeps(Abstract(), key, now);
      var cached := siweNonce;
      if cached != null && cached.key == key && cached.expiresAt.Some? && cached.expiresAt.value > now + MARGIN_MS {
        return cached;
      }
      entry := new CachedNonce(key, now + REQUEST_MS);
      ghost var before := Abstract();
      made := made + [entry];
      siweNonce := entry;
      assert Abstract().entries == before.entries + [Entry(key, Some(now + REQUEST_MS), Pending)];
    }

    /** The request's `then` step. */
    method Resolve(entry: CachedNonce, ghost e: nat, nonce: Nonce, expiresAt: Option<int>)
      requires Valid() && e < |made| && made[e] == entry && entry.status.Pending?
      modifies entry
      ensures Valid() && Abstract() == Step(old(Abstract()), ServerResolves(e, nonce, expiresAt))
    {
      ghost var before := Abstract();
      ServerKeeps(before, ServerResolves(e, nonce, expiresAt));
      entry.expiresAt := expiresAt;
      entry.status := Resolved(nonce);
      assert Abstract().entries == Step(before, ServerResolves(e, nonce, expiresAt)).entries;
    }

    /** The request's `catch` step. */
    method Reject(entry: CachedNonce, ghost e: nat)
      requires Valid() && e < |made| && made[e] == entry && entry.status.Pending?
      modifies this, entry
      ensures Valid() && Abstract() == Step(old(Abstract()), ServerRejects(e))
    {
      ghost var before := Abstract();
      ServerKeeps(before, ServerRejects(e));
      entry.status := Rejected;
      if siweNonce == entry {
        siweNonce := null;
      }
      assert Abstract().entries == Step(before, ServerRejects(e)).entries;
    }

    /** `takeSiweNonce` up to its await. */
    method TakeSiweNonce(key: Text, now: int) returns (promise: CachedNonce)
      requires Valid()
      modifies this
      ensures Valid() && Abstract() == Step(old(Abstract()), BeginTake(key, now))
      ensures promise == siweNonce
    {
      ghost var before := Abstract();
      BeginTakeKeeps(before, key, now);
      promise := PrepareSiweNonce(key, now);
      takes := takes + [Take(key, |made| - 1, Running, RunningTakes(takes))];
      assert Abstract().entries == Prepared(before, key, now).entries;
    }

    /** `takeSiweNonce` after its await: nothing is returned when the request was rejected. */
    method FinishTake(promise: CachedNonce, ghost k: nat) returns (nonce: Option<Nonce>)
      requires Valid() && k < |takes| && takes[k].outcome.Running?
      requires takes[k].entry < |made| && made[takes[k].entry] == promise && !promise.status.Pending?
      modifies this
      ensures Valid() && Abstract() == Step(old(Abstract()), EndTake(k))
      ensures takes[k].outcome == (match nonce case Some(n) => Returned(n) case None => Failed)
    {
      ghost var before := Abstract();
      EndTakeKeeps(before, k);
      if promise.status.Resolved? {
        if siweNonce == promise {
          siweNonce := null;
        }
        takes := takes[k := takes[k].(outcome := Returned(promise.status.nonce))];
        nonce := Some(promise.status.nonce);
      } else {
        takes := takes[k := takes[k].(outcome := Failed)];
        nonce := None;
      }
      assert Abstract().entries == before.entries;
    }
  }
}
