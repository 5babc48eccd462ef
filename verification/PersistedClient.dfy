/** The persisted client as a whole: saving it, and restoring it with the data of every query moved on. */
module PersistedClient {
  import opened Texts
  import opened Json
  import opened QueryPersistence

  // ----- Members of objects -----

  /** `v[key]`. */
  function Lookup(v: Value, key: Text): Value {
    if v.Obj? then (match Get(v.entries, key) case Some(x) => x case None => Undefined) else Undefined
  }

  /** The members after `object[key] = value`. */
  function Put(es: seq<Entry>, key: Text, value: Value): seq<Entry> {
    if es == [] then [Entry(key, value)]
    else if es[0].key == key then [Entry(key, value)] + es[1..]
    else [es[0]] + Put(es[1..], key, value)
  }

  lemma NoGet(es: seq<Entry>, key: Text)
    requires forall i | 0 <= i < |es| :: es[i].key != key
    ensures Lookup(Obj(es), key) == Undefined
  {}

  lemma LookupStep(e: Entry, es: seq<Entry>, key: Text)
    ensures Lookup(Obj([e] + es), key) ==
      if e.key == key && !e.value.Undefined? then e.value else Lookup(Obj(es), key)
  {
    Head(e, es);
  }

  lemma PutStep(e: Entry, es: seq<Entry>, key: Text, value: Value)
    ensures Put([e] + es, key, value) ==
      if e.key == key then [Entry(key, value)] + es else [e] + Put(es, key, value)
    ensures Put([], key, value) == [Entry(key, value)] + []
  {
    Head(e, es);
  }

  lemma {:induction false} PutGet(es: seq<Entry>, key: Text, value: Value, other: Text)
    requires DistinctKeys(es)
    ensures Lookup(Obj(Put(es, key, value)), other) == if other == key then value else Lookup(Obj(es), other)
  {
    hide Put, Lookup;
    NoGet([], other);
    if es == [] {
      PutStep(Entry(key, value), [], key, value);
      LookupStep(Entry(key, value), [], other);
    } else {
      var e, tail := es[0], es[1..];
      assert forall i | 0 <= i < |tail| :: tail[i].key != e.key;
      Uncons(es);
      PutStep(e, tail, key, value);
      LookupStep(e, tail, other);
      if e.key == key {
        NoGet(tail, key);
        LookupStep(Entry(key, value), tail, other);
      } else {
        PutGet(tail, key, value, other);
        LookupStep(e, Put(tail, key, value), other);
      }
    }
  }

  lemma {:induction false} PutPut(es: seq<Entry>, key: Text, value: Value, later: Value)
    ensures Put(Put(es, key, value), key, later) == Put(es, key, later)
  {
    if es != [] && es[0].key != key {
      Head(es[0], Put(es[1..], key, value));
      PutPut(es[1..], key, value, later);
    }
  }

  /** Writing back what is there changes nothing. */
  lemma {:induction false} PutSame(es: seq<Entry>, key: Text)
    requires DistinctKeys(es) && !Lookup(Obj(es), key).Undefined?
    ensures Put(es, key, Lookup(Obj(es), key)) == es
  {
    if es != [] {
      Uncons(es);
      if es[0].key == key {
        assert forall i | 0 <= i < |es[1..]| :: es[1..][i].key != key;
      } else {
        PutSame(es[1..], key);
      }
    }
  }

  lemma {:induction false} PutKeys(es: seq<Entry>, key: Text, value: Value)
    requires DistinctKeys(es)
    ensures DistinctKeys(Put(es, key, value))
    ensures forall e | e in Put(es, key, value) :: e in es || e == Entry(key, value)
    ensures forall e | e in Put(es, key, value) :: e.key == key || exists i | 0 <= i < |es| :: es[i].key == e.key
  {
    if es != [] && es[0].key != key {
      var tail := Put(es[1..], key, value);
      PutKeys(es[1..], key, value);
      forall j | 0 <= j < |tail|
        ensures tail[j].key != es[0].key
      {
        assert tail[j] in tail;
      }
    }
  }

  /** The object after `object[key] = value`. */
  function With(v: Value, key: Text, value: Value): Value {
    if v.Obj? then Obj(Put(v.entries, key, value)) else v
  }

  /** A value the cache stores without loss. */
  ghost predicate Saveable(v: Value) {
    Proper(v) && Storable(v)
  }

  lemma WithReads(v: Value, key: Text, value: Value)
    requires Proper(v) && v.Obj?
    ensures Lookup(With(v, key, value), key) == value
    ensures forall other | other != key :: Lookup(With(v, key, value), other) == Lookup(v, other)
    ensures forall later :: With(With(v, key, value), key, later) == With(v, key, later)
    ensures !Lookup(v, key).Undefined? ==> With(v, key, Lookup(v, key)) == v
  {
    hide Put, Lookup;
    PutGet(v.entries, key, value, key);
    forall other | other != key
      ensures Lookup(With(v, key, value), other) == Lookup(v, other)
    {
      PutGet(v.entries, key, value, other);
    }
    forall later
      ensures With(With(v, key, value), key, later) == With(v, key, later)
    {
      PutPut(v.entries, key, value, later);
    }
    if !Lookup(v, key).Undefined? {
      PutSame(v.entries, key);
    }
  }

  lemma WithStays(v: Value, key: Text, value: Value)
    requires Proper(v) && Proper(value)
    ensures Proper(With(v, key, value))
    ensures Storable(v) && Storable(value) && key != BIGINT_TAG ==> Storable(With(v, key, value))
  {
    if v.Obj? {
      hide Put;
      PutKeys(v.entries, key, value);
      var es := Put(v.entries, key, value);
      forall i | 0 <= i < |es|
        ensures Proper(es[i].value)
        ensures Storable(v) && Storable(value) && key != BIGINT_TAG ==>
          es[i].key != BIGINT_TAG && Storable(es[i].value)
      {
        assert es[i] in es;
      }
    }
  }

  lemma LookupStays(v: Value, key: Text)
    requires Proper(v)
    ensures Proper(Lookup(v, key))
    ensures Storable(v) && !Lookup(v, key).Undefined? ==> Storable(Lookup(v, key))
  {}

  // ----- Queries -----

  const CLIENT_STATE: Text := Ascii("clientState")
  const QUERIES: Text := Ascii("queries")
  const STATE: Text := Ascii("state")
  const DATA: Text := Ascii("data")
  const DATA_UPDATED_AT: Text := Ascii("dataUpdatedAt")

  /** What the loader needs of one stored query. */
  datatype StoredQuery = StoredQuery(data: Value, dataUpdatedAt: Number)

  function StoredQueryOf(query: Value): Option<StoredQuery> {
    var state := Lookup(query, STATE);
    var at := Lookup(state, DATA_UPDATED_AT);
    if at.Num? then Some(StoredQuery(Lookup(state, DATA), at.number)) else None
  }

  function QueryList(client: Value): Value {
    Lookup(Lookup(client, CLIENT_STATE), QUERIES)
  }

  /** `client.clientState.queries`, or nothing when the tree has another shape. */
  function StoredQueries(client: Value): (r: Option<seq<StoredQuery>>)
    ensures r.Some? ==> QueryList(client).Arr? && |r.value| == |QueryList(client).items|
    ensures r.Some? ==> forall i | 0 <= i < |r.value| :: Some(r.value[i]) == StoredQueryOf(QueryList(client).items[i])
  {
    var queries := QueryList(client);
    if !queries.Arr? then None
    else AllSome(seq(|queries.items|, i requires 0 <= i < |queries.items| => StoredQueryOf(queries.items[i])))
  }

  /** `query.state.data = data`. */
  function WithData(query: Value, data: Value): Value {
    With(query, STATE, With(Lookup(query, STATE), DATA, data))
  }

  /** The client with other queries in place of its own. */
  function WithQueries(client: Value, queries: seq<Value>): Value {
    With(client, CLIENT_STATE, With(Lookup(client, CLIENT_STATE), QUERIES, Arr(queries)))
  }

  lemma WithDataReads(query: Value, data: Value)
    requires Proper(query) && StoredQueryOf(query).Some?
    ensures StoredQueryOf(WithData(query, data)) == Some(StoredQueryOf(query).value.(data := data))
    ensures forall later :: WithData(WithData(query, data), later) == WithData(query, later)
    ensures var own := StoredQueryOf(query).value.data; !own.Undefined? ==> WithData(query, own) == query
  {
    hide With, Lookup, Proper;
    NamesDiffer();
    var state := Lookup(query, STATE);
    ObjectsAre(query, STATE, DATA_UPDATED_AT);
    LookupStays(query, STATE);
    WithReads(state, DATA, data);
    WithReads(query, STATE, With(state, DATA, data));
    WithReads(query, STATE, state);
  }

  lemma NamesDiffer()
    ensures DATA != DATA_UPDATED_AT
    ensures BIGINT_TAG != CLIENT_STATE && BIGINT_TAG != QUERIES && BIGINT_TAG != STATE && BIGINT_TAG != DATA
  {
    assert |DATA| < |DATA_UPDATED_AT|;
    assert CLIENT_STATE[0] != BIGINT_TAG[0];
  }

  /** Only objects have members. */
  lemma ObjectsAre(v: Value, outer: Text, inner: Text)
    requires !Lookup(Lookup(v, outer), inner).Undefined?
    ensures v.Obj? && Lookup(v, outer).Obj? && !Lookup(v, outer).Undefined?
  {}

  lemma WithDataStays(query: Value, data: Value)
    requires Saveable(query) && StoredQueryOf(query).Some? && Saveable(data)
    ensures Saveable(WithData(query, data))
  {
    hide With, Lookup, Proper, Storable;
    NamesDiffer();
    var state := Lookup(query, STATE);
    ObjectsAre(query, STATE, DATA_UPDATED_AT);
    LookupStays(query, STATE);
    WithStays(state, DATA, data);
    WithStays(query, STATE, With(state, DATA, data));
  }

  lemma WithQueriesReads(client: Value, queries: seq<Value>)
    requires Proper(client) && QueryList(client).Arr?
    ensures QueryList(WithQueries(client, queries)) == Arr(queries)
    ensures forall later :: WithQueries(WithQueries(client, queries), later) == WithQueries(client, later)
    ensures WithQueries(client, QueryList(client).items) == client
  {
    hide With, Lookup, Proper;
    var state := Lookup(client, CLIENT_STATE);
    ObjectsAre(client, CLIENT_STATE, QUERIES);
    LookupStays(client, CLIENT_STATE);
    WithReads(state, QUERIES, Arr(queries));
    WithReads(client, CLIENT_STATE, With(state, QUERIES, Arr(queries)));
    WithReads(client, CLIENT_STATE, state);
  }

  lemma WithQueriesStays(client: Value, queries: seq<Value>)
    requires Saveable(client) && QueryList(client).Arr?
    requires forall i | 0 <= i < |queries| :: Saveable(queries[i])
    ensures Saveable(WithQueries(client, queries))
  {
    AllSaveable(queries);
    hide With, Lookup, Proper, Storable;
    NamesDiffer();
    var state := Lookup(client, CLIENT_STATE);
    ObjectsAre(client, CLIENT_STATE, QUERIES);
    LookupStays(client, CLIENT_STATE);
    WithStays(state, QUERIES, Arr(queries));
    WithStays(client, CLIENT_STATE, With(state, QUERIES, Arr(queries)));
  }

  lemma AllSaveable(queries: seq<Value>)
    requires forall i | 0 <= i < |queries| :: Saveable(queries[i])
    ensures Saveable(Arr(queries))
  {}

  // ----- Restoring -----

  /** The data of one query moved on. */
  function Moved(query: Value, elapsed: Number -> nat): Value
    requires StoredQueryOf(query).Some?
  {
    var stored := StoredQueryOf(query).value;
    WithData(query, Age(stored.data, elapsed(stored.dataUpdatedAt)))
  }

  /** The client with every query's data moved on by the time `elapsed` gives for its last read. */
  function MoveAll(client: Value, elapsed: Number -> nat): Value
    requires StoredQueries(client).Some?
  {
    var queries := QueryList(client).items;
    WithQueries(client, seq(|queries|, i requires 0 <= i < |queries| => Moved(queries[i], elapsed)))
  }

  /** The seconds to take off a query restored at `now`, by its last read. */
  function Since(now: int): Number -> nat {
    at => Elapsed(now, at)
  }

  /** `deserializeClient`, as a function of the text. */
  function Restore(cached: Text, now: int): Result<Value, LoadError> {
    match Load(cached)
    case Err(e) => Err(e)
    case Ok(client) =>
      if StoredQueries(client).Some? then Ok(MoveAll(client, Since(now))) else Err(NotAClient)
  }

  /** The queries a cached text holds, before their data is moved on. */
  function LoadQueries(cached: Text): Result<seq<StoredQuery>, LoadError> {
    match Load(cached)
    case Err(e) => Err(e)
    case Ok(client) =>
      match StoredQueries(client)
      case Some(queries) => Ok(queries)
      case None => Err(NotAClient)
  }

  /** A text that is no JSON, or holds no client, is an error. */
  lemma RestoreFails(cached: Text, now: int)
    ensures Parse(cached).None? ==> Restore(cached, now) == Err(Malformed)
    ensures Load(cached).Err? ==> Restore(cached, now) == Err(Load(cached).error)
    ensures Load(cached).Ok? && StoredQueries(Load(cached).value).None? ==> Restore(cached, now) == Err(NotAClient)
  {}

  /** What is saved is what the loader finds, as JSON keeps it. */
  lemma SavedQueriesLoad(client: Value)
    requires Proper(client) && OwnsNoTag(client)
    ensures Load(SerializeClient(client)) == Ok(Kept(client)) && Saveable(Kept(client))
    ensures LoadQueries(SerializeClient(client)) ==
      if StoredQueries(Kept(client)).Some? then Ok(StoredQueries(Kept(client)).value) else Err(NotAClient)
  {
    hide Kept;
    WrittenReadsKept(client);
    KeptIsStorable(client);
  }

  /** A storable client is kept as it is. */
  lemma SaveableIsKept(client: Value)
    requires Saveable(client)
    ensures OwnsNoTag(client) && Kept(client) == client
    ensures Load(SerializeClient(client)) == Ok(client)
  {
    StorableIffKept(client);
    WrittenReadsKept(client);
  }

  lemma {:induction false} KeptGet(es: seq<Entry>, key: Text)
    ensures Get(KeptMembers(es), key) ==
      match Get(es, key)
      case Some(v) => Some(Kept(v))
      case None => None
  {
    if es != [] {
      var e, tail := es[0], es[1..];
      KeptGet(tail, key);
      KeptIsNoGap(e.value);
      Head(Entry(e.key, Kept(e.value)), KeptMembers(tail));
    }
  }

  lemma KeptIsNoGap(v: Value)
    ensures !Kept(v).Undefined?
  {}

  lemma KeptLookup(v: Value, key: Text)
    ensures Lookup(Kept(v), key) == if Lookup(v, key).Undefined? then Undefined else Kept(Lookup(v, key))
  {
    if v.Obj? { KeptGet(v.entries, key); }
  }

  /** The queries JSON keeps are those of the client, with the data JSON keeps of theirs. */
  lemma KeptQueries(client: Value)
    requires StoredQueries(client).Some?
    requires forall q | q in StoredQueries(client).value :: !q.data.Undefined?
    ensures var stored, kept := StoredQueries(client).value, StoredQueries(Kept(client));
      && kept.Some? && |kept.value| == |stored|
      && forall i | 0 <= i < |stored| :: kept.value[i] == stored[i].(data := Kept(stored[i].data))
  {
    hide Lookup, StoredQueryOf;
    KeptLookup(client, CLIENT_STATE);
    KeptLookup(Lookup(client, CLIENT_STATE), QUERIES);
    ObjectsAre(client, CLIENT_STATE, QUERIES);
    var queries := QueryList(client).items;
    assert QueryList(Kept(client)) == Kept(QueryList(client));
    forall i | 0 <= i < |queries|
      ensures StoredQueryOf(Kept(queries[i])) ==
        Some(StoredQueries(client).value[i].(data := Kept(StoredQueries(client).value[i].data)))
    {
      assert StoredQueries(client).value[i] in StoredQueries(client).value;
      KeptQuery(queries[i]);
    }
  }

  lemma KeptQuery(query: Value)
    requires StoredQueryOf(query).Some? && !StoredQueryOf(query).value.data.Undefined?
    ensures var stored := StoredQueryOf(query).value;
      StoredQueryOf(Kept(query)) == Some(stored.(data := Kept(stored.data)))
  {
    hide Lookup;
    var state := Lookup(query, STATE);
    KeptLookup(query, STATE);
    KeptLookup(state, DATA);
    KeptLookup(state, DATA_UPDATED_AT);
    ObjectsAre(query, STATE, DATA_UPDATED_AT);
  }

  lemma QueriesStay(client: Value, i: nat)
    requires Proper(client) && StoredQueries(client).Some? && i < |QueryList(client).items|
    ensures Proper(QueryList(client).items[i])
    ensures Storable(client) ==> Storable(QueryList(client).items[i])
  {
    hide Lookup;
    LookupStays(client, CLIENT_STATE);
    LookupStays(Lookup(client, CLIENT_STATE), QUERIES);
    ObjectsAre(client, CLIENT_STATE, QUERIES);
  }

  /** Moving on touches the data of each query and nothing else, and keeps every read time. */
  lemma MoveAllReads(client: Value, elapsed: Number -> nat)
    requires Proper(client) && StoredQueries(client).Some?
    ensures var moved, stored := MoveAll(client, elapsed), StoredQueries(client).value;
      && StoredQueries(moved).Some? && |StoredQueries(moved).value| == |stored|
      && (forall i | 0 <= i < |stored| :: StoredQueries(moved).value[i] ==
            stored[i].(data := Age(stored[i].data, elapsed(stored[i].dataUpdatedAt))))
      && (forall queries :: WithQueries(moved, queries) == WithQueries(client, queries))
      && (forall i, data | 0 <= i < |stored| ::
            WithData(QueryList(moved).items[i], data) == WithData(QueryList(client).items[i], data))
  {
    hide WithData, WithQueries, StoredQueryOf, QueryList, Proper, Age;
    var moved, queries := MoveAll(client, elapsed), QueryList(client).items;
    var others := seq(|queries|, i requires 0 <= i < |queries| => Moved(queries[i], elapsed));
    WithQueriesReads(client, others);
    forall i | 0 <= i < |queries|
      ensures StoredQueryOf(others[i]).Some?
      ensures var stored := StoredQueries(client).value[i];
        StoredQueryOf(others[i]) == Some(stored.(data := Age(stored.data, elapsed(stored.dataUpdatedAt))))
      ensures forall data :: WithData(others[i], data) == WithData(queries[i], data)
    {
      QueriesStay(client, i);
      var stored := StoredQueryOf(queries[i]).value;
      WithDataReads(queries[i], Age(stored.data, elapsed(stored.dataUpdatedAt)));
    }
  }

  // ----- When a restore changes nothing -----

  lemma {:induction false} PutShows(es: seq<Entry>, key: Text, value: Value)
    ensures Entry(key, value) in Put(es, key, value)
  {
    if es != [] && es[0].key != key {
      PutShows(es[1..], key, value);
    }
  }

  /** Writing a value that cannot be stored spoils the object. */
  lemma WithSpoils(v: Value, key: Text, value: Value)
    requires v.Obj? && !Storable(value)
    ensures !Storable(With(v, key, value))
  {
    PutShows(v.entries, key, value);
  }

  /** A query comes back as it was exactly if it has data that moving on leaves alone. */
  lemma MovedIsSameIff(query: Value, elapsed: Number -> nat)
    requires Saveable(query) && StoredQueryOf(query).Some?
    ensures var stored := StoredQueryOf(query).value;
      Moved(query, elapsed) == query <==>
        !stored.data.Undefined? && Age(stored.data, elapsed(stored.dataUpdatedAt)) == stored.data
  {
    hide With, Lookup, Proper, Storable, Age, WithData;
    var stored := StoredQueryOf(query).value;
    var aged := Age(stored.data, elapsed(stored.dataUpdatedAt));
    WithDataReads(query, aged);
    if stored.data.Undefined? {
      UndefinedSpoils(query, elapsed(stored.dataUpdatedAt));
    }
  }

  lemma UndefinedSpoils(query: Value, elapsed: nat)
    requires StoredQueryOf(query).Some?
    ensures Age(Undefined, elapsed) == Undefined && !Storable(WithData(query, Undefined))
  {
    hide With, Lookup, Storable;
    var state := Lookup(query, STATE);
    ObjectsAre(query, STATE, DATA_UPDATED_AT);
    UndefinedIsNotStored();
    WithSpoils(state, DATA, Undefined);
    WithSpoils(query, STATE, With(state, DATA, Undefined));
  }

  lemma UndefinedIsNotStored()
    ensures !Storable(Undefined)
  {}

  /**
   * Saving a storable client and restoring it changes nothing if and only if every query has data
   * without a negative countdown, and no second has passed since its read or all its countdowns are over.
   */
  lemma RestoreUnchangedIff(client: Value, now: int)
    requires Saveable(client) && StoredQueries(client).Some?
    ensures Restore(SerializeClient(client), now) == Ok(client) <==>
      forall q | q in StoredQueries(client).value ::
        && !q.data.Undefined? && CountdownsNonNegative(q.data)
        && (Elapsed(now, q.dataUpdatedAt) == 0 || Over(q.data, 0))
  {
    hide WithData, WithQueries, StoredQueryOf, QueryList, Proper, Storable, Age, Elapsed, CountdownsNonNegative, Over;
    SaveableIsKept(client);
    var queries, all := QueryList(client).items, StoredQueries(client).value;
    var others := seq(|queries|, i requires 0 <= i < |queries| => Moved(queries[i], Since(now)));
    WithQueriesReads(client, others);
    WithQueriesReads(client, queries);
    forall i | 0 <= i < |queries|
      ensures others[i] == queries[i] <==>
        && !all[i].data.Undefined? && CountdownsNonNegative(all[i].data)
        && (Elapsed(now, all[i].dataUpdatedAt) == 0 || Over(all[i].data, 0))
    {
      QueriesStay(client, i);
      DataStays(queries[i]);
      MovedIsSameIff(queries[i], Since(now));
      if !all[i].data.Undefined? {
        AgeChangesNothingIff(all[i].data, Elapsed(now, all[i].dataUpdatedAt));
      }
    }
    ItemsEqual(others, queries);
  }

  // ----- Runs of save and restore with no fresh read -----

  /** A client that owns no tag, and whose queries have data, as those chosen for storing do. */
  ghost predicate Restorable(client: Value) {
    && Proper(client) && OwnsNoTag(client) && StoredQueries(client).Some?
    && forall q | q in StoredQueries(client).value :: !q.data.Undefined?
  }

  lemma RestorableIsKept(client: Value)
    requires Restorable(client)
    ensures Restorable(Kept(client)) && Saveable(Kept(client))
  {
    hide Kept, StoredQueries;
    KeptIsStorable(client);
    StorableIffKept(Kept(client));
    KeptQueries(client);
    var kept := StoredQueries(Kept(client)).value;
    forall q | q in kept
      ensures !q.data.Undefined?
    {
      var i :| 0 <= i < |kept| && kept[i] == q;
      KeptIsNoGap(StoredQueries(client).value[i].data);
    }
  }

  /** The client after saving it, and restoring it later, at each of `times`. */
  function Sessions(client: Value, times: seq<int>): Result<Value, LoadError> {
    if times == [] then Ok(client)
    else
      match Sessions(client, times[..|times| - 1])
      case Err(e) => Err(e)
      case Ok(last) => if Proper(last) then Restore(SerializeClient(last), times[|times| - 1]) else Err(Malformed)
  }

  /** The times the restores measure, each from the one read of the chain, added up. */
  function TotalElapsed(dataUpdatedAt: Number, times: seq<int>): nat {
    if times == [] then 0
    else TotalElapsed(dataUpdatedAt, times[..|times| - 1]) + Elapsed(times[|times| - 1], dataUpdatedAt)
  }

  function SinceAll(times: seq<int>): Number -> nat {
    at => TotalElapsed(at, times)
  }

  lemma MovedStays(client: Value, elapsed: Number -> nat)
    requires Restorable(client) && Saveable(client)
    ensures Saveable(MoveAll(client, elapsed))
  {
    hide WithData, WithQueries, StoredQueryOf, QueryList, Proper, Storable, Age;
    var queries := QueryList(client).items;
    var others := seq(|queries|, i requires 0 <= i < |queries| => Moved(queries[i], elapsed));
    forall i | 0 <= i < |queries|
      ensures Saveable(others[i])
    {
      QueriesStay(client, i);
      var stored := StoredQueryOf(queries[i]).value;
      assert stored == StoredQueries(client).value[i];
      DataStays(queries[i]);
      AgeKeepsStorable(stored.data, elapsed(stored.dataUpdatedAt));
      WithDataStays(queries[i], Age(stored.data, elapsed(stored.dataUpdatedAt)));
    }
    WithQueriesStays(client, others);
  }

  lemma DataStays(query: Value)
    requires Saveable(query) && StoredQueryOf(query).Some?
    ensures var data := StoredQueryOf(query).value.data; Proper(data) && (!data.Undefined? ==> Storable(data))
  {
    hide Lookup;
    LookupStays(query, STATE);
    LookupStays(Lookup(query, STATE), DATA);
    ObjectsAre(query, STATE, DATA_UPDATED_AT);
  }

  /** Moving on twice is moving on by the sum. */
  lemma MoveAllTwice(client: Value, f: Number -> nat, g: Number -> nat, h: Number -> nat)
    requires Proper(client) && StoredQueries(client).Some?
    requires forall at :: h(at) == f(at) + g(at)
    ensures StoredQueries(MoveAll(client, f)).Some?
    ensures MoveAll(MoveAll(client, f), g) == MoveAll(client, h)
  {
    hide WithData, WithQueries, StoredQueryOf, Proper, Age;
    var once := MoveAll(client, f);
    MoveAllReads(client, f);
    var queries, moved := QueryList(client).items, QueryList(once).items;
    var twice := seq(|moved|, i requires 0 <= i < |moved| => Moved(moved[i], g));
    var atOnce := seq(|queries|, i requires 0 <= i < |queries| => Moved(queries[i], h));
    forall i | 0 <= i < |queries|
      ensures twice[i] == atOnce[i]
    {
      var stored := StoredQueries(client).value[i];
      AgeComposes(stored.data, f(stored.dataUpdatedAt), g(stored.dataUpdatedAt));
      assert StoredQueries(once).value[i] == StoredQueryOf(moved[i]).value;
    }
    assert twice == atOnce;
  }

  lemma MoveAllAlike(client: Value, f: Number -> nat, g: Number -> nat)
    requires StoredQueries(client).Some? && forall at :: f(at) == g(at)
    ensures MoveAll(client, f) == MoveAll(client, g)
  {
    var queries := QueryList(client).items;
    assert seq(|queries|, i requires 0 <= i < |queries| => Moved(queries[i], f))
        == seq(|queries|, i requires 0 <= i < |queries| => Moved(queries[i], g));
  }

  lemma SinceAllStep(before: seq<int>, now: int)
    ensures forall at :: SinceAll(before + [now])(at) == SinceAll(before)(at) + Since(now)(at)
    ensures before == [] ==> forall at :: SinceAll(before + [now])(at) == Since(now)(at)
  {
    assert (before + [now])[..|before|] == before;
  }

  lemma SessionsStep(client: Value, before: seq<int>, now: int)
    ensures Sessions(client, []) == Ok(client)
    ensures Sessions(client, before).Ok? && Proper(Sessions(client, before).value) ==>
      Sessions(client, before + [now]) == Restore(SerializeClient(Sessions(client, before).value), now)
  {
    assert (before + [now])[..|before|] == before;
  }

  lemma {:induction false} SessionsOfSaveable(client: Value, times: seq<int>)
    requires Restorable(client) && Saveable(client) && times != []
    ensures Sessions(client, times) == Ok(MoveAll(client, SinceAll(times)))
  {
    hide MoveAll, StoredQueries, Restorable, Sessions, Since, SinceAll, Proper, Storable;
    RestorableMeans(client);
    var before, now := times[..|times| - 1], times[|times| - 1];
    assert times == before + [now];
    SinceAllStep(before, now);
    SessionsStep(client, before, now);
    if before == [] {
      SaveableIsKept(client);
      MoveAllAlike(client, Since(now), SinceAll(times));
    } else {
      SessionsOfSaveable(client, before);
      MovedStays(client, SinceAll(before));
      MoveAllTwice(client, SinceAll(before), Since(now), SinceAll(times));
      SaveableIsKept(MoveAll(client, SinceAll(before)));
    }
  }

  /** After the first save only what JSON keeps matters. */
  lemma {:induction false} SessionsOfKept(client: Value, times: seq<int>)
    requires Proper(client) && OwnsNoTag(client) && times != []
    ensures Sessions(client, times) == Sessions(Kept(client), times)
  {
    hide Kept, Restore, Storable;
    var before, now := times[..|times| - 1], times[|times| - 1];
    SavedQueriesLoad(client);
    SaveableIsKept(Kept(client));
    SameTextRestores(SerializeClient(client), SerializeClient(Kept(client)), now);
    if before != [] {
      SessionsOfKept(client, before);
    }
  }

  lemma SameTextRestores(a: Text, b: Text, now: int)
    requires Load(a) == Load(b)
    ensures Restore(a, now) == Restore(b, now)
  {}

  /** Each restore takes the whole time since the read off again, query by query, so the times add up. */
  lemma SessionsAddUp(client: Value, times: seq<int>)
    requires Restorable(client) && times != []
    ensures StoredQueries(Kept(client)).Some?
    ensures Sessions(client, times) == Ok(MoveAll(Kept(client), SinceAll(times)))
  {
    hide Kept, Sessions, MoveAll, StoredQueries;
    RestorableIsKept(client);
    SessionsOfKept(client, times);
    SessionsOfSaveable(Kept(client), times);
  }

  lemma RestorableMeans(client: Value)
    requires Restorable(client)
    ensures Proper(client) && OwnsNoTag(client) && StoredQueries(client).Some?
    ensures forall q | q in StoredQueries(client).value :: !q.data.Undefined?
  {}

  lemma StoredDataStays(client: Value, i: nat)
    requires Restorable(client) && Saveable(client) && i < |StoredQueries(client).value|
    ensures Proper(StoredQueries(client).value[i].data) && Storable(StoredQueries(client).value[i].data)
  {
    hide StoredQueryOf, QueryList, Proper, Storable;
    QueriesStay(client, i);
    DataStays(QueryList(client).items[i]);
    assert StoredQueries(client).value[i] in StoredQueries(client).value;
  }

  lemma MovedQuery(client: Value, times: seq<int>, i: nat)
    requires Proper(client) && StoredQueries(client).Some? && i < |StoredQueries(client).value| && times != []
    ensures var end := StoredQueries(MoveAll(client, SinceAll(times)));
      var query := StoredQueries(client).value[i];
      var earlier := TotalElapsed(query.dataUpdatedAt, times[..|times| - 1]);
      && end.Some? && i < |end.value|
      && end.value[i] == query.(data := Age(query.data, earlier + Elapsed(times[|times| - 1], query.dataUpdatedAt)))
      && (|times| == 1 ==> earlier == 0)
  {
    hide MoveAll, Age, Proper, StoredQueries, QueryList, WithQueries, WithData, Elapsed;
    MoveAllReads(client, SinceAll(times));
  }

  /**
   * After any run of save and restore cycles, and for every query: no countdown is negative or later
   * than the true remaining time; the data is exactly the truth if and only if nothing had elapsed at
   * the earlier restores, or every countdown has truly ended; a single restore is always exact.
   */
  lemma RestoredCountdowns(client: Value, times: seq<int>, i: nat)
    requires Restorable(client) && times != [] && i < |StoredQueries(client).value|
    ensures var end := Sessions(client, times);
      var query := StoredQueries(client).value[i];
      var data := Kept(query.data);
      var earlier := TotalElapsed(query.dataUpdatedAt, times[..|times| - 1]);
      var last := Elapsed(times[|times| - 1], query.dataUpdatedAt);
      var truth := Age(data, last);
      && end.Ok? && StoredQueries(end.value).Some? && i < |StoredQueries(end.value).value|
      && var restored := StoredQueries(end.value).value[i];
      && restored.dataUpdatedAt == query.dataUpdatedAt
      && NoLater(restored.data, truth)
      && (restored.data == truth <==> earlier == 0 || Over(data, last))
      && (|times| == 1 ==> restored.data == truth)
  {
    hide *;
    RestorableMeans(client);
    RestorableIsKept(client);
    KeptQueries(client);
    SaveableMeans(Kept(client));
    SessionsAddUp(client, times);
    MovedQuery(Kept(client), times, i);
    StoredDataStays(Kept(client), i);
    var query := StoredQueries(client).value[i];
    AgedTooFar(Kept(query.data), TotalElapsed(query.dataUpdatedAt, times[..|times| - 1]),
      Elapsed(times[|times| - 1], query.dataUpdatedAt));
  }

  lemma SaveableMeans(v: Value)
    requires Saveable(v)
    ensures Proper(v) && Storable(v)
  {}

  // ----- An example -----

  function One(key: Text, v: Value): Value {
    Obj([Entry(key, v)])
  }

  /** A client with one query, read at time zero. */
  function ClientOf(data: Value): Value {
    One(Ascii("clientState"), One(Ascii("queries"), Arr([One(Ascii("state"), StateOf(data))])))
  }

  function StateOf(data: Value): Value {
    Obj([Entry(Ascii("data"), data), Entry(Ascii("dataUpdatedAt"), Num(ZERO))])
  }

  lemma OneReads(key: Text, v: Value)
    ensures Lookup(One(key, v), key) == v
    ensures Saveable(v) && key != BIGINT_TAG ==> Saveable(One(key, v))
  {
    assert [Entry(key, v)][1..] == [];
  }

  lemma StateReads(data: Value)
    ensures Lookup(StateOf(data), DATA) == data && Lookup(StateOf(data), DATA_UPDATED_AT) == Num(ZERO)
    ensures Saveable(data) ==> Saveable(StateOf(data))
  {
    NamesDiffer();
    var es := StateOf(data).entries;
    assert es[1..] == [Entry(DATA_UPDATED_AT, Num(ZERO))] && es[1..][1..] == [];
    assert BIGINT_TAG != DATA_UPDATED_AT by { assert BIGINT_TAG[0] != DATA_UPDATED_AT[0]; }
  }

  lemma ClientOfIsRestorable(data: Value)
    requires Saveable(data)
    ensures Restorable(ClientOf(data)) && Saveable(ClientOf(data))
    ensures StoredQueries(ClientOf(data)) == Some([StoredQuery(data, ZERO)])
  {
    hide One, StateOf, Lookup, Proper, Storable;
    NamesDiffer();
    var query := One(STATE, StateOf(data));
    StateReads(data);
    OneReads(STATE, StateOf(data));
    AllSaveable([query]);
    OneReads(QUERIES, Arr([query]));
    OneReads(CLIENT_STATE, One(QUERIES, Arr([query])));
    assert StoredQueries(ClientOf(data)).value == [StoredQuery(data, ZERO)];
    NoGap(data);
    StorableIffKept(ClientOf(data));
  }

  lemma NoGap(v: Value)
    requires Storable(v)
    ensures !v.Undefined?
  {}

  function Countdown(seconds: nat): Value {
    One(Ascii("secondsLeft"), Num(Number(false, seconds, [])))
  }

  lemma CountdownAges(seconds: nat, elapsed: nat)
    requires elapsed <= seconds
    ensures Saveable(Countdown(seconds))
    ensures Age(Countdown(seconds), elapsed) == Countdown(seconds - elapsed)
  {
    assert SECONDS_LEFT[0] != BIGINT_TAG[0];
    var n := Number(false, seconds, []);
    assert AgeMembers([Entry(SECONDS_LEFT, Num(n))], elapsed) == [Entry(SECONDS_LEFT, Num(AgeNumber(n, elapsed)))];
  }

  lemma OneQuerySessions(data: Value, times: seq<int>)
    requires Saveable(data) && times != []
    ensures var end := Sessions(ClientOf(data), times);
      && end.Ok?
      && StoredQueries(end.value) == Some([StoredQuery(Age(data, TotalElapsed(ZERO, times)), ZERO)])
  {
    hide *;
    var client := ClientOf(data);
    ClientOfIsRestorable(data);
    RestorableMeans(client);
    SaveableIsKept(client);
    SessionsAddUp(client, times);
    MoveAllReads(client, SinceAll(times));
    SinceAllIs(times, ZERO);
    var moved := StoredQueries(MoveAll(client, SinceAll(times))).value;
    assert moved[0] == StoredQuery(Age(data, TotalElapsed(ZERO, times)), ZERO);
    assert moved == [moved[0]];
  }

  lemma SinceAllIs(times: seq<int>, at: Number)
    ensures SinceAll(times)(at) == TotalElapsed(at, times)
  {}

  /** A countdown of 100 restored after 10 seconds, and again after 20, reads 70 where 80 are left. */
  lemma SecondRestoreIsEarly()
    ensures var end := Sessions(ClientOf(Countdown(100)), [10_000, 20_000]);
      && end.Ok? && StoredQueries(end.value) == Some([StoredQuery(Countdown(70), ZERO)])
      && Age(Countdown(100), Elapsed(20_000, ZERO)) == Countdown(80) != Countdown(70)
  {
    hide Sessions, StoredQueries, Countdown, Age, Saveable, ClientOf;
    var times := [10_000, 20_000];
    assert times[..1] == [10_000] && [10_000][..0] == [];
    assert TotalElapsed(ZERO, [10_000]) == 10 && TotalElapsed(ZERO, times) == 30;
    CountdownAges(100, 30);
    CountdownAges(100, 20);
    CountdownsDiffer(80, 70);
    OneQuerySessions(Countdown(100), times);
  }

  lemma CountdownsDiffer(a: nat, b: nat)
    ensures Countdown(a) == Countdown(b) ==> a == b
  {}

  // ----- deserializeClient -----

  /** A query of the parsed client: what its tree held, and the two members the loop looks at. */
  class CachedQuery {
    const tree: Value
    var data: Value
    var dataUpdatedAt: Number

    constructor (tree: Value)
      requires StoredQueryOf(tree).Some?
      ensures this.tree == tree && StoredQueryOf(tree) == Some(StoredQuery(data, dataUpdatedAt))
    {
      this.tree := tree;
      var stored := StoredQueryOf(tree).value;
      data, dataUpdatedAt := stored.data, stored.dataUpdatedAt;
    }
  }

  /** The loop that moves each query's data on, in place; its read time stays. */
  method AdvanceQueries(queries: seq<CachedQuery>, now: int)
    requires forall i, j | 0 <= i < j < |queries| :: queries[i] != queries[j]
    modifies queries
    ensures forall i | 0 <= i < |queries| ::
      && queries[i].dataUpdatedAt == old(queries[i].dataUpdatedAt)
      && queries[i].data == Age(old(queries[i].data), Elapsed(now, queries[i].dataUpdatedAt))
  {
    for k := 0 to |queries|
      invariant forall i | 0 <= i < |queries| :: queries[i].dataUpdatedAt == old(queries[i].dataUpdatedAt)
      invariant forall i | 0 <= i < k ::
        queries[i].data == Age(old(queries[i].data), Elapsed(now, queries[i].dataUpdatedAt))
      invariant forall i | k <= i < |queries| :: queries[i].data == old(queries[i].data)
    {
      var query := queries[k];
      var elapsed := Elapsed(now, query.dataUpdatedAt);
      query.data := Age(query.data, elapsed);
    }
  }

  /** The objects `JSON.parse` builds, one per query. */
  method ParseQueries(trees: seq<Value>) returns (queries: seq<CachedQuery>)
    requires forall i | 0 <= i < |trees| :: StoredQueryOf(trees[i]).Some?
    ensures |queries| == |trees|
    ensures forall i | 0 <= i < |trees| ::
      && fresh(queries[i]) && queries[i].tree == trees[i]
      && StoredQueryOf(trees[i]) == Some(StoredQuery(queries[i].data, queries[i].dataUpdatedAt))
    ensures forall i, j | 0 <= i < j < |queries| :: queries[i] != queries[j]
  {
    queries := [];
    for k := 0 to |trees|
      invariant |queries| == k
      invariant forall i | 0 <= i < k ::
        && fresh(queries[i]) && queries[i].tree == trees[i]
        && StoredQueryOf(trees[i]) == Some(StoredQuery(queries[i].data, queries[i].dataUpdatedAt))
      invariant forall i, j | 0 <= i < j < k :: queries[i] != queries[j]
    {
      var query := new CachedQuery(trees[k]);
      queries := queries + [query];
    }
  }

  /**
   * Loading a text: the client with its queries advanced in place is the restored client, or the error
   * reading it meets.
   */
  method DeserializeClient(cached: Text, now: int) returns (r: Result<Value, LoadError>)
    ensures r == Restore(cached, now)
  {
    hide Age, Load, WithQueries, WithData, QueryList, StoredQueryOf;
    var client;
    match Load(cached) {
      case Err(e) =>
        return Err(e);
      case Ok(parsed) =>
        client := parsed;
    }
    if StoredQueries(client).None? {
      return Err(NotAClient);
    }
    var trees := QueryList(client).items;
    var queries := ParseQueries(trees);
    AdvanceQueries(queries, now);
    var advanced := seq(|queries|, i requires 0 <= i < |queries| reads queries =>
      WithData(queries[i].tree, queries[i].data));
    assert advanced == seq(|trees|, i requires 0 <= i < |trees| => Moved(trees[i], Since(now)));
    r := Ok(WithQueries(client, advanced));
  }
}
