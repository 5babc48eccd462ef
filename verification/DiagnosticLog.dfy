/** The local diagnostics trail: pruned by age when read, capped in length when written. */
module DiagnosticLog {
  import opened Texts
  import opened Redaction
  import Json

  const MAX_ENTRIES: nat := 150
  const MAX_AGE_MS: int := 24 * 60 * 60 * 1000

  /** One stored entry; what it carries is never looked at again. */
  datatype Entry<T> = Entry(at: int, payload: T)

  /** The entries `readDiagnostics` returns at time `now`. */
  function Fresh<T>(entries: seq<Entry<T>>, now: int): seq<Entry<T>> {
    if entries == [] then []
    else if entries[0].at > now - MAX_AGE_MS then [entries[0]] + Fresh(entries[1..], now)
    else Fresh(entries[1..], now)
  }

  /** `entries.slice(-MAX_ENTRIES)`. */
  function Newest<T>(entries: seq<Entry<T>>): seq<Entry<T>> {
    if |entries| <= MAX_ENTRIES then entries else entries[|entries| - MAX_ENTRIES..]
  }

  // ----- Runs of the log -----

  datatype Action<T> = Record(at: int, payload: T) | Clear(at: int)

  /** The stored list after an action. A record writes back only what it could read. */
  function Store<T>(stored: seq<Entry<T>>, action: Action<T>): seq<Entry<T>> {
    match action
    case Record(at, payload) => Newest(Fresh(stored, at) + [Entry(at, payload)])
    case Clear(_) => []
  }

  function StoreAll<T>(actions: seq<Action<T>>): seq<Entry<T>> {
    if actions == [] then [] else Store(StoreAll(actions[..|actions| - 1]), actions[|actions| - 1])
  }

  /** Everything recorded since the last clear, with nothing ever dropped. */
  function History<T>(actions: seq<Action<T>>): seq<Entry<T>> {
    if actions == [] then []
    else
      match actions[|actions| - 1]
      case Record(at, payload) => History(actions[..|actions| - 1]) + [Entry(at, payload)]
      case Clear(_) => []
  }

  /** The clock never goes back. */
  predicate ClockAdvances<T>(actions: seq<Action<T>>) {
    forall i, j | 0 <= i < j < |actions| :: actions[i].at <= actions[j].at
  }

  predicate Chronological<T>(entries: seq<Entry<T>>) {
    forall i, j | 0 <= i < j < |entries| :: entries[i].at <= entries[j].at
  }

  // ----- Pruning facts -----

  lemma {:induction false} FreshConcat<T>(a: seq<Entry<T>>, b: seq<Entry<T>>, now: int)
    ensures Fresh(a + b, now) == Fresh(a, now) + Fresh(b, now)
  {
    if a == [] {
      assert a + b == b;
    } else {
      assert (a + b)[1..] == a[1..] + b;
      FreshConcat(a[1..], b, now);
    }
  }

  lemma {:induction false} FreshNone<T>(entries: seq<Entry<T>>, now: int)
    requires forall i | 0 <= i < |entries| :: entries[i].at <= now - MAX_AGE_MS
    ensures Fresh(entries, now) == []
  {
    if entries != [] { FreshNone(entries[1..], now); }
  }

  /** In a chronological list, pruning drops a prefix of entries that are too old. */
  lemma {:induction false} FreshIsSuffix<T>(entries: seq<Entry<T>>, now: int) returns (n: nat)
    requires Chronological(entries)
    ensures n <= |entries| && Fresh(entries, now) == entries[n..]
    ensures forall i | 0 <= i < n :: entries[i].at <= now - MAX_AGE_MS
  {
    n := 0;
    if entries != [] {
      var tail := entries[1..];
      if entries[0].at > now - MAX_AGE_MS {
        AllFresh(entries, now);
      } else {
        n := FreshIsSuffix(tail, now);
        assert tail[n..] == entries[n + 1..];
        n := n + 1;
      }
    }
  }

  lemma {:induction false} AllFresh<T>(entries: seq<Entry<T>>, now: int)
    requires forall i | 0 <= i < |entries| :: entries[i].at > now - MAX_AGE_MS
    ensures Fresh(entries, now) == entries
  {
    if entries != [] {
      AllFresh(entries[1..], now);
      assert entries == [entries[0]] + entries[1..];
    }
  }

  /** Pruning at two times, in either order, is pruning at the later one. */
  lemma {:induction false} FreshFresh<T>(entries: seq<Entry<T>>, a: int, b: int)
    ensures Fresh(Fresh(entries, a), b) == Fresh(entries, if a <= b then b else a)
  {
    if entries != [] { FreshFresh(entries[1..], a, b); }
  }

  lemma {:induction false} FreshLength<T>(entries: seq<Entry<T>>, now: int)
    ensures |Fresh(entries, now)| <= |entries|
    ensures (exists i | 0 <= i < |entries| :: entries[i].at <= now - MAX_AGE_MS) ==> |Fresh(entries, now)| < |entries|
  {
    if entries != [] { FreshLength(entries[1..], now); }
  }

  lemma {:induction false} FreshHas<T>(entries: seq<Entry<T>>, now: int, e: Entry<T>)
    ensures e in Fresh(entries, now) <==> e in entries && e.at > now - 86_400_000
  {
    if entries != [] {
      FreshHas(entries[1..], now, e);
      assert entries == [entries[0]] + entries[1..];
    }
  }

  /** The stored list is the newest entries of the history, less a prefix that was too old at `now`. */
  ghost predicate Trails<T>(stored: seq<Entry<T>>, history: seq<Entry<T>>, now: int) {
    exists n :: TrailsBy(stored, history, now, n)
  }

  ghost predicate TrailsBy<T>(stored: seq<Entry<T>>, history: seq<Entry<T>>, now: int, n: nat) {
    && n <= |Newest(history)| && stored == Newest(history)[n..]
    && forall i | 0 <= i < n :: Newest(history)[i].at <= now - MAX_AGE_MS
  }

  lemma {:induction false} HistoryClock<T>(actions: seq<Action<T>>)
    requires ClockAdvances(actions)
    ensures Chronological(History(actions))
    ensures forall i | 0 <= i < |History(actions)| :: History(actions)[i].at <= actions[|actions| - 1].at
  {
    if actions != [] {
      HistoryClock(actions[..|actions| - 1]);
    }
  }

  lemma DropDrop<T>(s: seq<T>, n: nat, k: nat)
    requires n + k <= |s|
    ensures s[n..][k..] == s[n + k..]
  {}

  lemma DropAppend<T>(s: seq<T>, x: T, n: nat)
    requires n <= |s|
    ensures (s + [x])[n..] == s[n..] + [x]
  {}

  lemma NewestAppend<T>(history: seq<Entry<T>>, entry: Entry<T>)
    ensures Newest(history + [entry]) ==
      if |history| < MAX_ENTRIES then Newest(history) + [entry] else Newest(history)[1..] + [entry]
  {
    if |history| >= MAX_ENTRIES {
      DropAppend(history, entry, |history| + 1 - MAX_ENTRIES);
    }
  }

  /** The stored list after a record, as a part of the newest history. */
  lemma RecordDrops<T>(newest: seq<Entry<T>>, next: seq<Entry<T>>, dropped: nat, entry: Entry<T>) returns (gone: nat)
    requires dropped <= |newest| <= MAX_ENTRIES
    requires next == if |newest| < MAX_ENTRIES then newest + [entry] else newest[1..] + [entry]
    ensures gone <= dropped && gone <= |next| && Newest(newest[dropped..] + [entry]) == next[gone..]
    ensures forall i | 0 <= i < gone :: next[i] in newest[..dropped]
  {
    if |newest| < MAX_ENTRIES {
      gone := dropped;
      DropAppend(newest, entry, dropped);
      assert forall i | 0 <= i < gone :: next[i] == newest[..dropped][i];
    } else if dropped == 0 {
      gone := 0;
      assert newest[0..] == newest;
      DropAppend(newest, entry, 1);
    } else {
      gone := dropped - 1;
      DropAppend(newest[1..], entry, gone);
      DropDrop(newest, 1, gone);
      assert forall i | 0 <= i < gone :: next[i] == newest[..dropped][i + 1];
    }
  }

  /** One more record keeps the stored list trailing the history. */
  lemma RecordTrails<T>(stored: seq<Entry<T>>, history: seq<Entry<T>>, before: int, entry: Entry<T>)
    requires Trails(stored, history, before) && before <= entry.at && Chronological(history)
    ensures Trails(Newest(Fresh(stored, entry.at) + [entry]), history + [entry], entry.at)
  {
    hide Fresh, Newest, Chronological;
    var newest, next := Newest(history), Newest(history + [entry]);
    var n: nat :| TrailsBy(stored, history, before, n);
    TrailIsChronological(stored, history, before, n);
    NewestLength(history);
    var k := FreshIsSuffix(stored, entry.at);
    DropDrop(newest, n, k);
    TooOld(newest, n, k, before, entry.at);
    NewestAppend(history, entry);
    var gone := RecordDrops(newest, next, n + k, entry);
    assert TrailsBy(next[gone..], history + [entry], entry.at, gone);
  }

  lemma NewestLength<T>(history: seq<Entry<T>>)
    ensures |Newest(history)| == if |history| < MAX_ENTRIES then |history| else MAX_ENTRIES
  {}

  lemma TrailIsChronological<T>(stored: seq<Entry<T>>, history: seq<Entry<T>>, before: int, n: nat)
    requires Chronological(history) && TrailsBy(stored, history, before, n)
    ensures Chronological(stored)
  {
    assert forall i | 0 <= i < |stored| :: stored[i] == Newest(history)[n + i];
  }

  lemma TooOld<T>(newest: seq<Entry<T>>, n: nat, k: nat, before: int, now: int)
    requires n + k <= |newest| && before <= now
    requires forall i | 0 <= i < n :: newest[i].at <= before - MAX_AGE_MS
    requires forall i | 0 <= i < k :: newest[n..][i].at <= now - MAX_AGE_MS
    ensures forall e | e in newest[..n + k] :: e.at <= now - MAX_AGE_MS
  {
    forall i | 0 <= i < n + k
      ensures newest[i].at <= now - MAX_AGE_MS
    {
      if i >= n { assert newest[n..][i - n] == newest[i]; }
    }
  }

  lemma {:induction false} StoreTrails<T>(actions: seq<Action<T>>)
    requires ClockAdvances(actions) && actions != []
    ensures Trails(StoreAll(actions), History(actions), actions[|actions| - 1].at)
  {
    var before, last := actions[..|actions| - 1], actions[|actions| - 1];
    if last.Record? {
      var entry := Entry(last.at, last.payload);
      HistoryClock(before);
      if before == [] {
        assert TrailsBy([], History(before), last.at, 0);
        RecordTrails(StoreAll(before), History(before), last.at, entry);
      } else {
        StoreTrails(before);
        RecordTrails(StoreAll(before), History(before), before[|before| - 1].at, entry);
      }
    } else {
      assert TrailsBy([], History(actions), last.at, 0);
    }
  }

  lemma TrailsReads<T>(stored: seq<Entry<T>>, history: seq<Entry<T>>, before: int, now: int)
    requires Trails(stored, history, before) && before <= now
    ensures Fresh(stored, now) == Fresh(Newest(history), now)
  {
    hide Fresh, Newest;
    var newest := Newest(history);
    var n: nat :| TrailsBy(stored, history, before, n);
    FreshNone(newest[..n], now);
    FreshConcat(newest[..n], newest[n..], now);
    assert newest == newest[..n] + newest[n..];
  }

  /**
   * Refinement: although every write prunes and cuts only what the previous write left, a read
   * returns exactly the entries younger than a day among the last 150 recorded since the clear.
   */
  lemma ReadRefinesHistory<T>(actions: seq<Action<T>>, now: int)
    requires ClockAdvances(actions)
    requires actions != [] ==> actions[|actions| - 1].at <= now
    ensures Fresh(StoreAll(actions), now) == Fresh(Newest(History(actions)), now)
  {
    if actions != [] {
      StoreTrails(actions);
      TrailsReads(StoreAll(actions), History(actions), actions[|actions| - 1].at, now);
    }
  }

  // ----- Any clock -----

  /** What pruning at the time of each record leaves of a list, if nothing is ever cut. */
  function Surviving<T>(history: seq<Entry<T>>): seq<Entry<T>> {
    if history == [] then []
    else
      var front, last := history[..|history| - 1], history[|history| - 1];
      Fresh(Surviving(front), last.at) + [last]
  }

  /** No entry that is young at `now` was ever old at the time of a later record. */
  predicate NothingLost<T>(history: seq<Entry<T>>, now: int) {
    forall i, j | 0 <= i < j < |history| ::
      history[i].at > now - MAX_AGE_MS ==> history[i].at > history[j].at - MAX_AGE_MS
  }

  lemma SurvivingStep<T>(front: seq<Entry<T>>, last: Entry<T>, now: int)
    ensures Surviving(front + [last]) == Fresh(Surviving(front), last.at) + [last]
    ensures Fresh(Surviving(front + [last]), now)
      == Fresh(Fresh(Surviving(front), now), last.at) + Fresh([last], now)
    ensures Fresh(front + [last], now) == Fresh(front, now) + Fresh([last], now)
  {
    assert (front + [last])[..|front|] == front;
    FreshConcat(Fresh(Surviving(front), last.at), [last], now);
    FreshConcat(front, [last], now);
    FreshFresh(Surviving(front), last.at, now);
    FreshFresh(Surviving(front), now, last.at);
  }

  lemma NothingLostStep<T>(front: seq<Entry<T>>, last: Entry<T>, now: int)
    ensures NothingLost(front + [last], now) <==>
      NothingLost(front, now) &&
      (forall i | 0 <= i < |front| :: front[i].at > now - MAX_AGE_MS ==> front[i].at > last.at - MAX_AGE_MS)
  {
    var all, n := front + [last], |front|;
    assert forall i | 0 <= i < n :: all[i] == front[i];
    assert all[n] == last;
  }

  lemma {:induction false} SurvivingIsShorter<T>(history: seq<Entry<T>>, now: int)
    ensures |Fresh(Surviving(history), now)| <= |Fresh(history, now)|
    ensures |Surviving(history)| <= |history|
  {
    hide Fresh;
    if history != [] {
      var front, last := history[..|history| - 1], history[|history| - 1];
      assert history == front + [last];
      SurvivingStep(front, last, now);
      SurvivingIsShorter(front, now);
      FreshLength(Fresh(Surviving(front), now), last.at);
      FreshLength(Surviving(front), last.at);
    }
  }

  lemma {:induction false} KeepsAllIfNothingLost<T>(history: seq<Entry<T>>, now: int)
    requires NothingLost(history, now)
    ensures Fresh(Surviving(history), now) == Fresh(history, now)
  {
    hide Fresh, Surviving;
    if history == [] {
      SurvivingIsShorter(history, now);
      FreshLength(history, now);
    } else {
      var front, last := history[..|history| - 1], history[|history| - 1];
      assert history == front + [last];
      SurvivingStep(front, last, now);
      NothingLostStep(front, last, now);
      KeepsAllIfNothingLost(front, now);
      var young := Fresh(front, now);
      forall i | 0 <= i < |young|
        ensures young[i].at > last.at - MAX_AGE_MS
      {
        FreshHas(front, now, young[i]);
      }
      AllFresh(young, last.at);
    }
  }

  // ----- What is stored, with any clock and any number of entries -----

  /**
   * The entry is never too old at a later record, and at none of them do 150 entries that were kept
   * until then follow it.
   */
  predicate Outlasts<T>(e: Entry<T>, later: seq<Entry<T>>) {
    forall l | 0 <= l < |later| ::
      e.at > later[l].at - MAX_AGE_MS && |Surviving(later[..l + 1])| < MAX_ENTRIES
  }

  /** Those of the first `k` entries that outlast what follows them. */
  function Lasting<T>(history: seq<Entry<T>>, k: nat): (r: seq<Entry<T>>)
    requires k <= |history|
    decreases k
  {
    if k == 0 then []
    else (if Outlasts(history[0], history[1..]) then [history[0]] else []) + Lasting(history[1..], k - 1)
  }

  lemma LastingAt<T>(history: seq<Entry<T>>, k: nat)
    requires 0 < k <= |history|
    ensures Lasting(history, k) ==
      (if Outlasts(history[0], history[1..]) then [history[0]] else []) + Lasting(history[1..], k - 1)
  {}

  lemma {:induction false} LastingSplits<T>(history: seq<Entry<T>>, k: nat)
    requires k <= |history|
    ensures Lasting(history, |history|) == Lasting(history, k) + Lasting(history[k..], |history| - k)
    decreases k
  {
    hide Outlasts;
    if k == 0 {
      assert history[0..] == history;
    } else {
      hide Lasting;
      var rest := history[1..];
      LastingSplits(rest, k - 1);
      LastingAt(history, k);
      LastingAt(history, |history|);
      assert rest[k - 1..] == history[k..];
      Assoc(if Outlasts(history[0], rest) then [history[0]] else [], Lasting(rest, k - 1),
        Lasting(history[k..], |history| - k));
    }
  }

  predicate LastsAt<T>(history: seq<Entry<T>>, i: nat)
    requires i < |history|
  {
    Outlasts(history[i], history[i + 1..])
  }

  lemma LastsAtShifts<T>(history: seq<Entry<T>>, i: nat)
    requires 0 < i < |history|
    ensures history[1..][i - 1] == history[i] && LastsAt(history[1..], i - 1) == LastsAt(history, i)
  {
    hide Outlasts;
    assert history[1..][i..] == history[i + 1..];
  }

  lemma {:induction false} LastingHas<T>(history: seq<Entry<T>>, k: nat, e: Entry<T>)
    requires k <= |history|
    ensures e in Lasting(history, k) <==> exists i | 0 <= i < k :: history[i] == e && LastsAt(history, i)
    decreases k
  {
    hide Outlasts;
    if k > 0 {
      hide Lasting, LastsAt;
      var rest := history[1..];
      LastingAt(history, k);
      LastingHas(rest, k - 1, e);
      LastsFirst(history);
      if i :| 0 <= i < k && history[i] == e && LastsAt(history, i) {
        if i > 0 { LastsAtShifts(history, i); }
      }
      if i :| 0 <= i < k - 1 && rest[i] == e && LastsAt(rest, i) {
        LastsAtShifts(history, i + 1);
      }
    }
  }

  lemma LastsFirst<T>(history: seq<Entry<T>>)
    requires history != []
    ensures LastsAt(history, 0) == Outlasts(history[0], history[1..])
  {}

  lemma OutlastsStep<T>(e: Entry<T>, later: seq<Entry<T>>, last: Entry<T>)
    ensures Outlasts(e, later + [last]) <==>
      Outlasts(e, later) && e.at > last.at - MAX_AGE_MS && |Surviving(later + [last])| < MAX_ENTRIES
  {
    hide Surviving;
    var all, n := later + [last], |later|;
    assert forall l | 0 <= l < n :: all[l] == later[l] && all[..l + 1] == later[..l + 1];
    assert all[n] == last && all[..n + 1] == all;
  }

  lemma NewestStep<T>(first: Entry<T>, rest: seq<Entry<T>>)
    ensures Newest([first] + rest) == if |rest| < MAX_ENTRIES then [first] + rest else Newest(rest)
  {
    if |rest| >= MAX_ENTRIES {
      var k := |rest| - MAX_ENTRIES;
      assert ([first] + rest)[k + 1..] == rest[k..];
    }
  }

  lemma FreshStep<T>(first: Entry<T>, rest: seq<Entry<T>>, now: int)
    ensures Fresh([first] + rest, now) == (if first.at > now - MAX_AGE_MS then [first] else []) + Fresh(rest, now)
    ensures Fresh<T>([], now) == []
  {
    assert ([first] + rest)[1..] == rest;
  }

  lemma RecordInFront<T>(first: Entry<T>, lasts: bool, kept: seq<Entry<T>>, e: Entry<T>)
    ensures Fresh((if lasts then [first] else []) + kept, e.at) + [e] ==
      (if lasts && first.at > e.at - MAX_AGE_MS then [first] else []) + (Fresh(kept, e.at) + [e])
  {
    hide Fresh;
    FreshStep(first, kept, e.at);
    assert [] + kept == kept;
  }

  lemma NewestInFront<T>(first: Entry<T>, there: bool, rest: seq<Entry<T>>)
    ensures Newest((if there then [first] else []) + rest) ==
      (if there && |rest| < MAX_ENTRIES then [first] else []) + Newest(rest)
  {
    NewestStep(first, rest);
    assert [] + rest == rest && [] + Newest(rest) == Newest(rest);
  }

  lemma LastingSnoc<T>(first: Entry<T>, rest: seq<Entry<T>>, e: Entry<T>)
    ensures Lasting([first] + rest + [e], |rest| + 2) ==
      (if Outlasts(first, rest + [e]) then [first] else []) + Lasting(rest + [e], |rest| + 1)
    ensures Lasting([first] + rest, |rest| + 1) ==
      (if Outlasts(first, rest) then [first] else []) + Lasting(rest, |rest|)
  {
    hide Outlasts, Lasting;
    assert ([first] + rest + [e])[1..] == rest + [e] && ([first] + rest)[1..] == rest;
    LastingAt([first] + rest + [e], |rest| + 2);
    LastingAt([first] + rest, |rest| + 1);
  }

  lemma LastingOfOne<T>(e: Entry<T>)
    ensures Lasting([e], 1) == Newest(Fresh(Lasting([], 0), e.at) + [e])
  {
    FreshStep(e, [], e.at);
  }

  /** A record acts on the entries that last as it does on the stored list. */
  lemma {:induction false} LastingStep<T>(history: seq<Entry<T>>, e: Entry<T>)
    ensures Lasting(history + [e], |history| + 1) == Newest(Fresh(Lasting(history, |history|), e.at) + [e])
    decreases |history|, 0
  {
    hide Fresh, Newest, Surviving, Outlasts, Lasting;
    if history == [] {
      assert history + [e] == [e];
      LastingOfOne(e);
    } else {
      var first, rest := history[0], history[1..];
      assert history == [first] + rest;
      LastingStep(rest, e);
      LastingInFront(first, rest, e);
    }
  }

  lemma LastingInFront<T>(first: Entry<T>, rest: seq<Entry<T>>, e: Entry<T>)
    requires Lasting(rest + [e], |rest| + 1) == Newest(Fresh(Lasting(rest, |rest|), e.at) + [e])
    ensures Lasting([first] + rest + [e], |rest| + 2)
      == Newest(Fresh(Lasting([first] + rest, |rest| + 1), e.at) + [e])
    decreases |rest|, 2
  {
    hide Fresh, Newest, Surviving, Outlasts, Lasting;
    var kept := Lasting(rest, |rest|);
    var next := Fresh(kept, e.at) + [e];
    var lasts, young := Outlasts(first, rest), first.at > e.at - MAX_AGE_MS;
    LastingSnoc(first, rest, e);
    OutlastsStep(first, rest, e);
    RecordInFront(first, lasts, kept, e);
    NewestInFront(first, lasts && young, next);
    if lasts {
      NoCutYet(first, rest);
      SurvivingStep(rest, e, e.at);
    }
  }

  /** Until 150 kept entries follow an entry, only age removes those after it. */
  lemma {:induction false} NoCutYet<T>(e: Entry<T>, later: seq<Entry<T>>)
    requires Outlasts(e, later)
    ensures Lasting(later, |later|) == Surviving(later)
    decreases |later|, 1
  {
    OutlastsShort(e, later);
    NoCut(later);
  }

  lemma OutlastsShort<T>(e: Entry<T>, later: seq<Entry<T>>)
    requires Outlasts(e, later)
    ensures ShortAlways(later)
  {
    hide Surviving;
    forall l | 0 < l <= |later|
      ensures |Surviving(later[..l])| <= MAX_ENTRIES
    {
      assert later[l - 1] in later && later[..l - 1 + 1] == later[..l];
    }
  }

  /** At no record are more entries kept by age than the log holds. */
  predicate ShortAlways<T>(history: seq<Entry<T>>) {
    forall l | 0 < l <= |history| :: |Surviving(history[..l])| <= MAX_ENTRIES
  }

  lemma {:induction false} NoCut<T>(history: seq<Entry<T>>)
    requires ShortAlways(history)
    ensures Lasting(history, |history|) == Surviving(history)
    decreases |history|, 0
  {
    if history != [] {
      hide Fresh, Newest, Surviving, Outlasts, Lasting;
      var n := |history| - 1;
      var front, last := history[..n], history[n];
      assert history == front + [last] && history[..n + 1] == history;
      assert forall l | 0 < l <= n :: front[..l] == history[..l];
      NoCut(front);
      LastingStep(front, last);
      SurvivingStep(front, last, last.at);
      NewestOfShort(Surviving(history));
    }
  }

  lemma NewestOfShort<T>(entries: seq<Entry<T>>)
    requires |entries| <= MAX_ENTRIES
    ensures Newest(entries) == entries
  {}

  lemma ShortIfShort<T>(history: seq<Entry<T>>)
    requires |history| <= MAX_ENTRIES
    ensures ShortAlways(history)
  {
    hide Surviving;
    forall l | 0 < l <= |history|
      ensures |Surviving(history[..l])| <= MAX_ENTRIES
    {
      SurvivingIsShorter(history[..l], 0);
    }
  }

  /** The exact content of the log: the stored entries are those of the history that outlast what follows. */
  lemma {:induction false} StoreIsLasting<T>(actions: seq<Action<T>>)
    ensures StoreAll(actions) == Lasting(History(actions), |History(actions)|)
  {
    hide Fresh, Newest, Lasting;
    if actions == [] {
      NothingLasts<T>();
    } else {
      var before, last := actions[..|actions| - 1], actions[|actions| - 1];
      assert actions == before + [last];
      StoreStep(before, last);
      if last.Record? {
        StoreIsLasting(before);
        LastingStep(History(before), Entry(last.at, last.payload));
      } else {
        NothingLasts<T>();
      }
    }
  }

  lemma NothingLasts<T>()
    ensures Lasting<T>([], 0) == []
  {}

  /** How many entries come before the newest 150. */
  function Older<T>(history: seq<Entry<T>>): (k: nat)
    ensures k <= |history| && history[k..] == Newest(history) && (k > 0 ==> |history| - k == MAX_ENTRIES)
  {
    if |history| <= MAX_ENTRIES then 0 else |history| - MAX_ENTRIES
  }

  /** So it is what survives of the newest 150, after the older entries that linger. */
  lemma StoreIsSurviving<T>(actions: seq<Action<T>>)
    ensures var history := History(actions);
      StoreAll(actions) == Lasting(history, Older(history)) + Surviving(Newest(history))
  {
    hide StoreAll, History, Lasting, Surviving, Newest;
    var history := History(actions);
    StoreIsLasting(actions);
    LastingSplits(history, Older(history));
    NewestLength(history);
    ShortIfShort(Newest(history));
    NoCut(Newest(history));
  }

  // ----- When a read is the history's, with any clock -----

  /** How many entries are too old at `now`. */
  function Old<T>(entries: seq<Entry<T>>, now: int): nat {
    if entries == [] then 0 else (if entries[0].at <= now - MAX_AGE_MS then 1 else 0) + Old(entries[1..], now)
  }

  lemma {:induction false} OldConcat<T>(a: seq<Entry<T>>, b: seq<Entry<T>>, now: int)
    ensures Old(a + b, now) == Old(a, now) + Old(b, now)
  {
    if a == [] {
      assert a + b == b;
    } else {
      assert (a + b)[1..] == a[1..] + b;
      OldConcat(a[1..], b, now);
    }
  }

  lemma {:induction false} OldOfFresh<T>(entries: seq<Entry<T>>, at: int, now: int)
    ensures Old(Fresh(entries, at), now) <= Old(entries, now)
    ensures at == now ==> Old(Fresh(entries, at), now) == 0
  {
    if entries != [] { OldOfFresh(entries[1..], at, now); }
  }

  lemma {:induction false} OldIsNone<T>(entries: seq<Entry<T>>, now: int)
    ensures Old(entries, now) == 0 <==> forall e | e in entries :: e.at > now - MAX_AGE_MS
  {
    if entries != [] {
      OldIsNone(entries[1..], now);
      assert entries == [entries[0]] + entries[1..];
    }
  }

  /** Pruning at each record keeps no more of the entries that are old by another clock. */
  lemma {:induction false} SurvivingHasFewerOld<T>(history: seq<Entry<T>>, now: int, other: int)
    ensures Old(Fresh(Surviving(history), now), other) <= Old(Fresh(history, now), other)
  {
    hide Fresh, Old, Surviving;
    if history == [] {
      SmallLists<T>(now);
    } else {
      var front, last := history[..|history| - 1], history[|history| - 1];
      assert history == front + [last];
      SurvivingHasFewerOld(front, now, other);
      OldOfLast(front, last, now, other);
    }
  }

  lemma SmallLists<T>(now: int)
    ensures Surviving<T>([]) == []
  {}

  lemma OldOfLast<T>(front: seq<Entry<T>>, last: Entry<T>, now: int, other: int)
    ensures Old(Fresh(Surviving(front + [last]), now), other) <=
      Old(Fresh(Surviving(front), now), other) + Old(Fresh([last], now), other)
    ensures other == last.at ==> Old(Fresh(Surviving(front + [last]), now), other) == 0
    ensures Old(Fresh(front + [last], now), other) == Old(Fresh(front, now), other) + Old(Fresh([last], now), other)
  {
    hide Fresh, Old, Surviving;
    SurvivingStep(front, last, now);
    var kept := Fresh(Surviving(front), now);
    OldConcat(Fresh(kept, last.at), Fresh([last], now), other);
    OldConcat(Fresh(front, now), Fresh([last], now), other);
    OldOfFresh(kept, last.at, other);
    if other == last.at {
      OldIsNone([last], other);
      OldOfFresh([last], now, other);
    }
  }

  /** A loss shows: by the clock of the record that caused it, fewer old entries are left. */
  lemma {:induction false} LossShows<T>(history: seq<Entry<T>>, now: int, i: nat, j: nat)
    requires i < j < |history|
    requires history[i].at > now - MAX_AGE_MS && history[i].at <= history[j].at - MAX_AGE_MS
    ensures Old(Fresh(Surviving(history), now), history[j].at) < Old(Fresh(history, now), history[j].at)
  {
    hide Fresh, Old, Surviving;
    var n := |history| - 1;
    var front, last := history[..n], history[n];
    assert history == front + [last];
    OldOfLast(front, last, now, history[j].at);
    if j < n {
      LossShows(front, now, i, j);
    } else {
      FreshHas(front, now, front[i]);
      OldIsNone(Fresh(front, now), history[j].at);
    }
  }

  /** No older entry that lingers is young at `now`. */
  predicate NothingLingers<T>(history: seq<Entry<T>>, now: int) {
    forall i | 0 <= i < Older(history) ::
      LastsAt(history, i) ==> history[i].at <= now - MAX_AGE_MS
  }

  lemma LingeringIff<T>(history: seq<Entry<T>>, now: int)
    ensures Fresh(Lasting(history, Older(history)), now) == [] <==> NothingLingers(history, now)
  {
    hide Fresh, Lasting, LastsAt, Older;
    var k := Older(history);
    var lingering := Lasting(history, k);
    var young := Fresh(lingering, now);
    if young == [] {
      forall i | 0 <= i < k && LastsAt(history, i)
        ensures history[i].at <= now - MAX_AGE_MS
      {
        LastingHas(history, k, history[i]);
        FreshHas(lingering, now, history[i]);
      }
    } else {
      var e := young[0];
      FreshHas(lingering, now, e);
      LastingHas(history, k, e);
      var i :| 0 <= i < k && history[i] == e && LastsAt(history, i);
    }
  }

  /** What lingers was never too old at a later record. */
  lemma LingeringIsNotOld<T>(history: seq<Entry<T>>, k: nat, j: nat, now: int)
    requires k <= j < |history|
    ensures Old(Fresh(Lasting(history, k), now), history[j].at) == 0
  {
    hide Fresh, Lasting, Old;
    var lingering := Lasting(history, k);
    forall e | e in lingering
      ensures e.at > history[j].at - MAX_AGE_MS
    {
      LastingHas(history, k, e);
      var i :| 0 <= i < k && history[i] == e && LastsAt(history, i);
      assert history[i + 1..][j - i - 1] == history[j];
    }
    OldIsNone(lingering, history[j].at);
    OldOfFresh(lingering, now, history[j].at);
  }

  /**
   * The exact condition, for every clock and any number of entries: a read is the history's if and
   * only if no entry of the newest 150 that is young now was ever old at the time of a later record,
   * and no older entry that is young now outlasted the records after it.
   */
  lemma ReadRefinesHistoryIff<T>(actions: seq<Action<T>>, now: int)
    ensures var history := History(actions);
      Fresh(StoreAll(actions), now) == Fresh(Newest(history), now) <==>
        NothingLost(Newest(history), now) && NothingLingers(history, now)
  {
    hide StoreAll, History, Surviving, Fresh, NothingLingers, Lasting, Old;
    var history := History(actions);
    var newest, k := Newest(history), Older(history);
    var lingering := Fresh(Lasting(history, k), now);
    StoreIsSurviving(actions);
    FreshConcat(Lasting(history, k), Surviving(newest), now);
    LingeringIff(history, now);
    if NothingLost(newest, now) {
      KeepsAllIfNothingLost(newest, now);
      assert lingering == [] ==> lingering + Fresh(newest, now) == Fresh(newest, now);
    } else {
      var i, j :| 0 <= i < j < |newest| &&
        newest[i].at > now - MAX_AGE_MS && newest[i].at <= newest[j].at - MAX_AGE_MS;
      LossShows(newest, now, i, j);
      LingeringIsNotOld(history, k, k + j, now);
      OldConcat(lingering, Fresh(Surviving(newest), now), newest[j].at);
    }
  }

  /** Where the clock lost none of the newest 150, a read ends with the young ones, after what lingers. */
  lemma ReadEndsWithHistory<T>(actions: seq<Action<T>>, now: int)
    requires NothingLost(Newest(History(actions)), now)
    ensures var history := History(actions);
      Fresh(StoreAll(actions), now) == Fresh(Lasting(history, Older(history)), now) + Fresh(Newest(history), now)
  {
    hide StoreAll, History, Surviving, Fresh, NothingLost, Newest, Lasting;
    var history := History(actions);
    StoreIsSurviving(actions);
    FreshConcat(Lasting(history, Older(history)), Surviving(Newest(history)), now);
    KeepsAllIfNothingLost(Newest(history), now);
  }

  /** The records that make a history. */
  function Records<T>(history: seq<Entry<T>>): (actions: seq<Action<T>>)
    ensures |actions| == |history|
  {
    seq(|history|, i requires 0 <= i < |history| => Record(history[i].at, history[i].payload))
  }

  lemma {:induction false} HistoryOfRecords<T>(history: seq<Entry<T>>)
    ensures History(Records(history)) == history
  {
    if history != [] {
      var n := |history| - 1;
      var front := history[..n];
      HistoryOfRecords(front);
      assert Records(history)[..n] == Records(front);
      assert history == front + [history[n]];
    }
  }

  /** A list whose first entry is too old for its last keeps fewer entries than it has. */
  lemma OldHeadIsGone<T>(history: seq<Entry<T>>)
    requires |history| > 1 && history[0].at <= history[|history| - 1].at - MAX_AGE_MS
    ensures |Surviving(history)| < |history|
  {
    hide Fresh, Surviving;
    var n := |history| - 1;
    var front, last := history[..n], history[n];
    assert history == front + [last];
    SurvivingStep(front, last, last.at);
    SurvivingIsShorter(front, last.at);
    FreshLength(front, last.at);
    assert front[0] == history[0];
    FreshFresh(Surviving(front), last.at, last.at);
  }

  /**
   * The cut shows too: an entry, one dated before the others by a wrong clock, and 149 more. The second
   * is pruned at once, so the first stays, and is read although 150 were recorded after it.
   */
  lemma OlderEntryLingers<T>(payload: T)
    ensures var e, wrong := Entry(2 * MAX_AGE_MS, payload), Entry(0, payload);
      var history := [e, wrong] + seq(149, _ => e);
      var actions := Records(history);
      && History(actions) == history && |history| == MAX_ENTRIES + 1
      && NothingLost(Newest(history), e.at) && !NothingLingers(history, e.at)
      && Fresh(StoreAll(actions), e.at) != Fresh(Newest(history), e.at)
  {
    hide StoreAll, History, Surviving, Fresh;
    var e, wrong := Entry(2 * MAX_AGE_MS, payload), Entry(0, payload);
    var history := [e, wrong] + seq(149, _ => e);
    var later := history[1..];
    HistoryOfRecords(history);
    forall l | 0 <= l < |later|
      ensures e.at > later[l].at - MAX_AGE_MS && |Surviving(later[..l + 1])| < MAX_ENTRIES
    {
      SurvivingIsShorter(later[..l + 1], 0);
      if l > 0 {
        assert later[..l + 1][0] == wrong && later[..l + 1][l] == e;
        OldHeadIsGone(later[..l + 1]);
      }
    }
    assert LastsAt(history, 0);
    ReadRefinesHistoryIff(Records(history), e.at);
  }

  /** The refinement needs the clock: one that jumps ahead and back loses a young entry for good. */
  lemma ClockMustAdvance<T>(payload: T)
    ensures var actions := [Record(0, payload), Record(MAX_AGE_MS, payload), Record(1, payload)];
      Fresh(StoreAll(actions), 1) != Fresh(Newest(History(actions)), 1)
  {
    var a, b, c := Record(0, payload), Record(MAX_AGE_MS, payload), Record(1, payload);
    var ea, eb, ec := Entry(0, payload), Entry(MAX_AGE_MS, payload), Entry(1, payload);
    assert [a, b, c][..2] == [a, b] && [a, b][..1] == [a] && [a][..0] == [];
    assert StoreAll([a]) == [ea];
    FreshNone([ea], MAX_AGE_MS);
    assert StoreAll([a, b]) == [eb];
    assert StoreAll([a, b, c]) == [eb, ec] by { AllFresh([eb], 1); }
    assert History([a]) == [ea];
    assert History([a, b]) == [ea, eb];
    assert History([a, b, c]) == [ea, eb, ec];
    AllFresh([eb, ec], 1);
    AllFresh([ea, eb, ec], 1);
  }

  lemma StoreStep<T>(actions: seq<Action<T>>, action: Action<T>)
    ensures StoreAll(actions + [action]) == Store(StoreAll(actions), action)
    ensures History(actions + [action]) ==
      if action.Record? then History(actions) + [Entry(action.at, action.payload)] else []
  {
    assert (actions + [action])[..|actions|] == actions;
  }

  // ----- Lines -----

  /** What a caller records: strings among the details are texts, other scalars are not looked at. */
  datatype Line = Line(kind: Text, message: Text, detail: Option<seq<Json.Entry>>)

  function RedactScalar(v: Json.Value): Json.Value {
    if v.Str? then Json.Str(Redact(v.text)) else v
  }

  function RedactDetail(detail: seq<Json.Entry>): (r: seq<Json.Entry>)
    ensures |r| == |detail|
  {
    seq(|detail|, i requires 0 <= i < |detail| => Json.Entry(detail[i].key, RedactScalar(detail[i].value)))
  }

  /** The line with its message and every text among its details redacted. */
  function RedactLine(line: Line): Line {
    line.(message := Redact(line.message),
          detail := if line.detail.Some? then Some(RedactDetail(line.detail.value)) else None)
  }

  /**
   * `stored` is what the log keeps of `line`: the same kind and detail names, the message and every text
   * among the details redacted, and every other detail as given.
   */
  ghost predicate RedactedFrom(line: Line, stored: Line) {
    && stored.kind == line.kind && stored.message == Redact(line.message)
    && stored.detail.Some? == line.detail.Some?
    && (line.detail.Some? ==>
          && |stored.detail.value| == |line.detail.value|
          && forall i | 0 <= i < |line.detail.value| ::
               ScalarFrom(line.detail.value[i], stored.detail.value[i]))
  }

  ghost predicate ScalarFrom(given: Json.Entry, stored: Json.Entry) {
    && stored.key == given.key
    && stored.value == if given.value.Str? then Json.Str(Redact(given.value.text)) else given.value
  }

  lemma RedactLineIs(line: Line)
    ensures RedactedFrom(line, RedactLine(line))
  {}

  /** A text the log keeps is short, and holds an address only where its original chained one on. */
  ghost predicate SafeText(given: Text, stored: Text) {
    |stored| <= 300 && (HasEmail(stored) ==> LeavesEmail(given)) && (!HasEmail(given) ==> stored <= given)
  }

  ghost predicate SafeLine(given: Line, stored: Line) {
    && SafeText(given.message, stored.message)
    && (stored.detail.Some? ==>
          && given.detail.Some? && |given.detail.value| == |stored.detail.value|
          && forall i | 0 <= i < |stored.detail.value| ::
               SafeScalar(given.detail.value[i].value, stored.detail.value[i].value))
  }

  ghost predicate SafeScalar(given: Json.Value, stored: Json.Value) {
    if given.Str? then stored.Str? && SafeText(given.text, stored.text) else stored == given
  }

  /** Every text of a kept line is safe. */
  lemma RedactedIsSafe(line: Line, stored: Line)
    requires RedactedFrom(line, stored)
    ensures SafeLine(line, stored)
  {
    hide Redact, SafeText;
    RedactIsSafe(line.message);
    if stored.detail.Some? {
      forall i | 0 <= i < |stored.detail.value|
        ensures SafeScalar(line.detail.value[i].value, stored.detail.value[i].value)
      {
        assert ScalarFrom(line.detail.value[i], stored.detail.value[i]);
        if line.detail.value[i].value.Str? { RedactIsSafe(line.detail.value[i].value.text); }
      }
    }
  }

  lemma RedactIsSafe(given: Text)
    ensures SafeText(given, Redact(given))
  {
    hide HasEmail, LeavesEmail, Replaced;
    RedactLeavesIff(given);
  }

  /** The history of a log, entry by entry redacted from the lines it was given. */
  ghost predicate Redacts(lines: seq<Line>, history: seq<Entry<Line>>) {
    |lines| == |history| && forall i | 0 <= i < |lines| :: RedactedFrom(lines[i], history[i].payload)
  }

  lemma RedactsOneMore(lines: seq<Line>, history: seq<Entry<Line>>, line: Line, e: Entry<Line>)
    requires Redacts(lines, history) && RedactedFrom(line, e.payload)
    ensures Redacts(lines + [line], history + [e])
  {}

  /** Whatever a log returns was recorded. */
  lemma ReadsAreRecorded(actions: seq<Action<Line>>, now: int)
    ensures forall e | e in Fresh(StoreAll(actions), now) :: e in History(actions)
  {
    hide StoreAll, History, Fresh, Lasting;
    StoreIsLasting(actions);
    forall e | e in Fresh(StoreAll(actions), now)
      ensures e in History(actions)
    {
      FreshHas(StoreAll(actions), now, e);
      LastingHas(History(actions), |History(actions)|, e);
    }
  }

  /** The stored list, with the actions that made it, and the lines recorded since the last clear as they were given. */
  class Log {
    var stored: seq<Entry<Line>>
    ghost var actions: seq<Action<Line>>
    ghost var lines: seq<Line>

    ghost predicate Valid()
      reads this
    {
      stored == StoreAll(actions) && Redacts(lines, History(actions))
    }

    /** The clock has never gone back, up to `now`. */
    ghost predicate ClockAdvancesTo(now: int)
      reads this
    {
      ClockAdvances(actions) && (actions != [] ==> actions[|actions| - 1].at <= now)
    }

    /** `e` is kept from the `i`-th line given, and its texts are safe. */
    ghost predicate KeptFrom(e: Entry<Line>, i: nat)
      reads this
    {
      && i < |lines| && i < |History(actions)| && e == History(actions)[i]
      && RedactedFrom(lines[i], e.payload) && SafeLine(lines[i], e.payload)
    }

    constructor ()
      ensures Valid() && actions == [] && lines == []
    {
      stored, actions, lines := [], [], [];
    }

    method ReadDiagnostics(now: int) returns (entries: seq<Entry<Line>>)
      requires Valid()
      ensures entries == Fresh(stored, now)
      ensures ClockAdvancesTo(now) ==> entries == Fresh(Newest(History(actions)), now)
      ensures entries == Fresh(Newest(History(actions)), now) <==>
        NothingLost(Newest(History(actions)), now) && NothingLingers(History(actions), now)
      ensures forall e | e in entries :: exists i :: KeptFrom(e, i)
    {
      hide StoreAll, Fresh, Newest, NothingLost, NothingLingers, ClockAdvances, RedactedFrom, SafeLine, History;
      entries := Fresh(stored, now);
      if ClockAdvancesTo(now) {
        ReadRefinesHistory(actions, now);
      }
      ReadRefinesHistoryIff(actions, now);
      ReadsAreRecorded(actions, now);
      forall e | e in entries
        ensures exists i :: KeptFrom(e, i)
      {
        var i :| 0 <= i < |History(actions)| && History(actions)[i] == e;
        RedactedIsSafe(lines[i], e.payload);
        assert KeptFrom(e, i);
      }
    }

    method RecordDiagnostic(now: int, line: Line)
      requires Valid()
      modifies this
      ensures Valid() && lines == old(lines) + [line]
      ensures exists kept :: RedactedFrom(line, kept) && actions == old(actions) + [Record(now, kept)]
      ensures History(actions) == History(old(actions)) + [History(actions)[|old(lines)|]]
      ensures History(actions)[|old(lines)|].at == now && RedactedFrom(line, History(actions)[|old(lines)|].payload)
    {
      hide StoreAll, Fresh, Newest, History, RedactLine, RedactedFrom;
      var redacted := RedactLine(line);
      RedactLineIs(line);
      var entries := ReadDiagnostics(now);
      StoreStep(actions, Record(now, redacted));
      RedactsOneMore(lines, History(actions), line, Entry(now, redacted));
      stored := Newest(entries + [Entry(now, redacted)]);
      actions, lines := actions + [Record(now, redacted)], lines + [line];
    }

    method ClearDiagnostics(ghost now: int)
      requires Valid()
      modifies this
      ensures Valid() && actions == old(actions) + [Clear(now)] && History(actions) == [] && lines == []
    {
      hide StoreAll, Fresh, Newest, History;
      StoreStep(actions, Clear(now));
      stored := [];
      actions, lines := actions + [Clear(now)], [];
    }
  }
}
