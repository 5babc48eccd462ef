/** The canonical JSON printer whose output is hashed: sorted keys, `undefined` members dropped. */
module Canonical {
  import opened Texts
  import opened Json

  datatype Failure = NonFiniteNumber | UnsupportedType

  /** `localeCompare(left, right) <= 0`, whatever the host's collation is. */
  type Collation = (Text, Text) -> bool

  ghost predicate TotalPreorder(le: Collation) {
    && (forall a, b :: le(a, b) || le(b, a))
    && (forall a, b, c :: le(a, b) && le(b, c) ==> le(a, c))
  }

  /** The collation tells any two different keys apart. */
  ghost predicate Separating(le: Collation) {
    forall a, b :: le(a, b) && le(b, a) ==> a == b
  }

  // ----- The printer -----

  function InsertByKey(e: Entry, es: seq<Entry>, le: Collation): (r: seq<Entry>)
    ensures |r| == |es| + 1
    ensures forall d :: d in r <==> d == e || d in es
  {
    if es == [] || le(e.key, es[0].key) then [e] + es
    else [es[0]] + InsertByKey(e, es[1..], le)
  }

  /** `Array.prototype.sort` by key: stable. */
  function SortByKey(es: seq<Entry>, le: Collation): (r: seq<Entry>)
    ensures |r| == |es|
    ensures forall e :: e in r <==> e in es
  {
    if es == [] then [] else InsertByKey(es[0], SortByKey(es[1..], le), le)
  }

  function Serialize(v: Value, le: Collation): Result<Text, Failure>
    decreases v
  {
    match v
    case Null => Ok(Ascii("null"))
    case Bool(flag) => Ok(if flag then Ascii("true") else Ascii("false"))
    case Str(s) => Ok(PrintString(s))
    case NonFinite(_) => Err(NonFiniteNumber)
    case Num(n) => Ok(PrintNumber(n))
    case Arr(items) =>
      (match AllOk(SerializeItems(items, le))
       case Ok(texts) => Ok(ArrayText(texts))
       case Err(e) => Err(e))
    case Obj(es) =>
      (match AllOk(SerializeMembers(es, le))
       case Ok(texts) => Ok(ObjectText(texts))
       case Err(e) => Err(e))
    case Undefined => Err(UnsupportedType)
    case BigInt(_) => Err(UnsupportedType)
  }

  function SerializeItems(items: seq<Value>, le: Collation): (r: seq<Result<Text, Failure>>)
    ensures |r| == |items| && forall i | 0 <= i < |items| :: r[i] == Serialize(items[i], le)
    decreases items
  {
    seq(|items|, i requires 0 <= i < |items| => Serialize(items[i], le))
  }

  function SerializeMembers(es: seq<Entry>, le: Collation): (r: seq<Result<Text, Failure>>)
    ensures |r| == |Members(es, le)|
    ensures forall i | 0 <= i < |r| ::
      r[i] == Member(Members(es, le)[i].key, Serialize(Members(es, le)[i].value, le))
    decreases es
  {
    var members := Members(es, le);
    seq(|members|, i requires 0 <= i < |members| => Member(members[i].key, Serialize(members[i].value, le)))
  }

  /** The properties printed, in printing order. */
  function Members(es: seq<Entry>, le: Collation): (r: seq<Entry>)
    ensures forall i | 0 <= i < |r| :: r[i] in es && !r[i].value.Undefined?
  {
    SortByKey(Live(es), le)
  }

  function Member(key: Text, child: Result<Text, Failure>): Result<Text, Failure> {
    match child
    case Ok(text) => Ok(MemberText(key, text))
    case Err(e) => Err(e)
  }

  // ----- What it means -----

  /** The inputs `serialize` does not throw on: `undefined` is allowed only as a property value. */
  predicate Canonicalisable(v: Value) {
    match v
    case Undefined => false
    case NonFinite(_) => false
    case BigInt(_) => false
    case Arr(items) => forall i | 0 <= i < |items| :: Canonicalisable(items[i])
    case Obj(es) => forall i | 0 <= i < |es| :: es[i].value.Undefined? || Canonicalisable(es[i].value)
    case _ => true
  }

  /** Somewhere in what is printed there is a cause for the failure. */
  predicate Faulty(v: Value, e: Failure) {
    match v
    case NonFinite(_) => e == NonFiniteNumber
    case Undefined => e == UnsupportedType
    case BigInt(_) => e == UnsupportedType
    case Arr(items) => exists i | 0 <= i < |items| :: Faulty(items[i], e)
    case Obj(es) => exists i | 0 <= i < |es| :: !es[i].value.Undefined? && Faulty(es[i].value, e)
    case _ => false
  }

  /** A failure has its cause: a number that is not finite, or a bigint or stray gap. */
  lemma {:induction false} FailureHasCause(v: Value, le: Collation)
    ensures Serialize(v, le).Err? ==> Faulty(v, Serialize(v, le).error)
    decreases v
  {
    if Serialize(v, le).Err? {
      var e := Serialize(v, le).error;
      match v
      case Arr(items) =>
        var k :| 0 <= k < |items| && SerializeItems(items, le)[k] == Err(e);
        FailureHasCause(items[k], le);
      case Obj(es) =>
        var members := Members(es, le);
        var k :| 0 <= k < |members| && SerializeMembers(es, le)[k] == Err(e);
        assert members[k] in es;
        FailureHasCause(members[k].value, le);
        var i :| 0 <= i < |es| && es[i] == members[k];
        assert Faulty(es[i].value, e);
      case _ =>
    }
  }

  /** The normalised value: `undefined` members gone, members sorted, at every depth. */
  function Canon(v: Value, le: Collation): Value
    requires Canonicalisable(v)
    decreases v
  {
    match v
    case Arr(items) => Arr(CanonItems(items, le))
    case Obj(es) => Obj(CanonMembers(es, le))
    case _ => v
  }

  function CanonItems(items: seq<Value>, le: Collation): (r: seq<Value>)
    requires Canonicalisable(Arr(items))
    ensures |r| == |items| && forall i | 0 <= i < |items| :: r[i] == Canon(items[i], le)
    decreases items
  {
    seq(|items|, i requires 0 <= i < |items| => Canon(items[i], le))
  }

  function CanonMembers(es: seq<Entry>, le: Collation): (r: seq<Entry>)
    requires Canonicalisable(Obj(es))
    ensures |r| == |Members(es, le)|
    ensures forall i | 0 <= i < |r| ::
      r[i] == Entry(Members(es, le)[i].key, Canon(Members(es, le)[i].value, le))
    decreases es
  {
    var members := Members(es, le);
    seq(|members|, i requires 0 <= i < |members| => Entry(members[i].key, Canon(members[i].value, le)))
  }

  /** The same data: arrays item by item, objects by lookup, blind to member order. */
  ghost predicate Same(v: Value, w: Value)
    decreases v
  {
    match (v, w)
    case (Arr(a), Arr(b)) => |a| == |b| && forall i | 0 <= i < |a| :: Same(a[i], b[i])
    case (Obj(a), Obj(b)) =>
      (forall key ::
         match (Get(a, key), Get(b, key))
         case (Some(x), Some(y)) => Same(x, y)
         case (None, None) => true
         case _ => false)
    case _ => v == w
  }

  // ----- Sorting facts -----

  ghost predicate SortedByKey(es: seq<Entry>, le: Collation) {
    forall i, j | 0 <= i < j < |es| :: le(es[i].key, es[j].key)
  }

  lemma {:induction false} InsertSorts(e: Entry, es: seq<Entry>, le: Collation)
    requires TotalPreorder(le) && SortedByKey(es, le)
    ensures SortedByKey(InsertByKey(e, es, le), le)
  {
    if es != [] && !le(e.key, es[0].key) {
      var tail := InsertByKey(e, es[1..], le);
      InsertSorts(e, es[1..], le);
      forall j | 0 <= j < |tail|
        ensures le(es[0].key, tail[j].key)
      {
        assert tail[j] in tail;
      }
    } else {
      forall j | 0 <= j < |es|
        ensures le(e.key, es[j].key)
      {
        assert j > 0 ==> le(es[0].key, es[j].key);
      }
    }
  }

  lemma {:induction false} SortSorts(es: seq<Entry>, le: Collation)
    requires TotalPreorder(le)
    ensures SortedByKey(SortByKey(es, le), le)
  {
    if es != [] {
      SortSorts(es[1..], le);
      InsertSorts(es[0], SortByKey(es[1..], le), le);
    }
  }

  lemma {:induction false} InsertDistinct(e: Entry, es: seq<Entry>, le: Collation)
    requires DistinctKeys(es) && forall d | d in es :: d.key != e.key
    ensures DistinctKeys(InsertByKey(e, es, le))
  {
    if es != [] && !le(e.key, es[0].key) {
      var tail := InsertByKey(e, es[1..], le);
      InsertDistinct(e, es[1..], le);
      forall j | 0 <= j < |tail|
        ensures tail[j].key != es[0].key
      {
        assert tail[j] in tail;
      }
    }
  }

  lemma {:induction false} SortDistinct(es: seq<Entry>, le: Collation)
    requires DistinctKeys(es)
    ensures DistinctKeys(SortByKey(es, le))
  {
    if es != [] {
      SortDistinct(es[1..], le);
      InsertDistinct(es[0], SortByKey(es[1..], le), le);
    }
  }

  /** Entries whose keys the collation cannot tell from `key`, in order. */
  function Tied(es: seq<Entry>, key: Text, le: Collation): seq<Entry> {
    if es == [] then []
    else if le(es[0].key, key) && le(key, es[0].key) then [es[0]] + Tied(es[1..], key, le)
    else Tied(es[1..], key, le)
  }

  lemma {:induction false} InsertKeepsTies(e: Entry, es: seq<Entry>, key: Text, le: Collation)
    requires TotalPreorder(le)
    ensures Tied(InsertByKey(e, es, le), key, le) == Tied([e] + es, key, le)
  {
    Head(e, es);
    if es != [] && !le(e.key, es[0].key) {
      InsertKeepsTies(e, es[1..], key, le);
      Head(e, es[1..]);
      Head(es[0], InsertByKey(e, es[1..], le));
    }
  }

  /** The sort is stable: entries with indistinguishable keys keep their relative order. */
  lemma {:induction false} SortIsStable(es: seq<Entry>, key: Text, le: Collation)
    requires TotalPreorder(le)
    ensures Tied(SortByKey(es, le), key, le) == Tied(es, key, le)
  {
    if es != [] {
      SortIsStable(es[1..], key, le);
      InsertKeepsTies(es[0], SortByKey(es[1..], le), key, le);
      Head(es[0], SortByKey(es[1..], le));
    }
  }

  lemma {:induction false} SortOfSorted(es: seq<Entry>, le: Collation)
    requires SortedByKey(es, le)
    ensures SortByKey(es, le) == es
  {
    if es != [] {
      SortOfSorted(es[1..], le);
      Uncons(es);
    }
  }

  function Keys(es: seq<Entry>): (r: seq<Text>)
    ensures |r| == |es| && forall i | 0 <= i < |es| :: r[i] == es[i].key
  {
    seq(|es|, i requires 0 <= i < |es| => es[i].key)
  }

  ghost predicate SortedKeys(a: seq<Text>, le: Collation) {
    forall i, j | 0 <= i < j < |a| :: le(a[i], a[j]) && a[i] != a[j]
  }

  /** Under a separating order a set of keys has one sorted listing. */
  lemma {:induction false} UniqueSortedKeys(a: seq<Text>, b: seq<Text>, le: Collation)
    requires TotalPreorder(le) && Separating(le)
    requires SortedKeys(a, le) && SortedKeys(b, le)
    requires forall k :: k in a <==> k in b
    ensures a == b
  {
    HeadIn(b);
    if a != [] {
      assert a[0] in b;
      HeadIsLeast(a, b[0], le);
      HeadIsLeast(b, a[0], le);
      forall k
        ensures k in a[1..] <==> k in b[1..]
      {
        KeyInTail(a, k, le);
        KeyInTail(b, k, le);
      }
      UniqueSortedKeys(a[1..], b[1..], le);
      Uncons(a);
      Uncons(b);
    }
  }

  lemma HeadIn(a: seq<Text>)
    ensures a == [] || a[0] in a
  {}

  lemma HeadIsLeast(a: seq<Text>, k: Text, le: Collation)
    requires TotalPreorder(le) && SortedKeys(a, le) && k in a
    ensures le(a[0], k)
  {
    var i :| 0 <= i < |a| && a[i] == k;
    assert i == 0 || le(a[0], a[i]);
  }

  lemma KeyInTail(a: seq<Text>, k: Text, le: Collation)
    requires a != [] && SortedKeys(a, le)
    ensures k in a[1..] <==> k in a && k != a[0]
  {
    if k in a && k != a[0] {
      var i :| 0 <= i < |a| && a[i] == k;
      assert a[1..][i - 1] == k;
    }
    if k in a[1..] {
      var i :| 0 <= i < |a| - 1 && a[1..][i] == k;
      assert a[i + 1] == k;
    }
  }

  // ----- Printing is printing the normalised value -----

  /** The text, when there is one, is the normalised value printed. */
  ghost predicate PrintsCanon(v: Value, le: Collation) {
    && (Serialize(v, le).Ok? <==> Canonicalisable(v))
    && (Canonicalisable(v) ==> IsJson(Canon(v, le)) && Serialize(v, le) == Ok(Print(Canon(v, le))))
  }

  lemma {:induction false} SerializePrintsCanon(v: Value, le: Collation)
    requires Proper(v)
    ensures PrintsCanon(v, le)
    decreases v
  {
    match v
    case Arr(items) =>
      forall i | 0 <= i < |items| { SerializePrintsCanon(items[i], le); }
      SerializeArray(items, le);
    case Obj(es) =>
      forall i | 0 <= i < |es| { SerializePrintsCanon(es[i].value, le); }
      SerializeObject(es, le);
    case _ =>
  }

  lemma SerializeArray(items: seq<Value>, le: Collation)
    requires forall i | 0 <= i < |items| :: PrintsCanon(items[i], le)
    ensures PrintsCanon(Arr(items), le)
  {
    var results := SerializeItems(items, le);
    assert forall i | 0 <= i < |items| :: results[i].Ok? <==> Canonicalisable(items[i]);
    if Canonicalisable(Arr(items)) {
      assert AllOk(results).value == PrintItems(CanonItems(items, le));
    }
  }

  lemma SerializeObject(es: seq<Entry>, le: Collation)
    requires forall i | 0 <= i < |es| :: PrintsCanon(es[i].value, le)
    ensures PrintsCanon(Obj(es), le)
  {
    var members, results := Members(es, le), SerializeMembers(es, le);
    assert forall i | 0 <= i < |members| :: results[i].Ok? <==> Canonicalisable(members[i].value);
    LiveOnly(es, le);
    if Canonicalisable(Obj(es)) {
      assert AllOk(results).value == PrintMembers(CanonMembers(es, le));
    }
  }

  /** An object is canonicalisable exactly when every member printed is. */
  lemma LiveOnly(es: seq<Entry>, le: Collation)
    ensures var members := Members(es, le);
      Canonicalisable(Obj(es)) <==> forall i | 0 <= i < |members| :: Canonicalisable(members[i].value)
  {
    var members := Members(es, le);
    forall i | 0 <= i < |es| && !es[i].value.Undefined?
      ensures exists j | 0 <= j < |members| :: members[j].value == es[i].value
    {
      assert es[i] in Live(es);
      assert es[i] in members;
    }
  }

  /**
   * The text determines the data: whatever delimiter-led text follows it, reading gives the
   * normalised value back and stops exactly at its end.
   */
  lemma ReadBack(v: Value, le: Collation, rest: Text)
    requires Proper(v) && Canonicalisable(v) && Delimited(rest)
    ensures Serialize(v, le).Ok?
    ensures ReadValue(Serialize(v, le).value + rest) == Some((Canon(v, le), rest))
  {
    SerializePrintsCanon(v, le);
    ReadPrinted(Canon(v, le), rest);
  }

  // ----- Equal texts mean the same data, whatever the collation -----

  /** Lookup and the printed members agree. */
  lemma MembersLookup(es: seq<Entry>, le: Collation)
    requires DistinctKeys(es)
    ensures DistinctKeys(Members(es, le))
    ensures forall i | 0 <= i < |Members(es, le)| ::
      Get(es, Members(es, le)[i].key) == Some(Members(es, le)[i].value)
    ensures forall key :: key in Keys(Members(es, le)) <==> Get(es, key).Some?
  {
    var members := Members(es, le);
    LiveDistinct(es);
    SortDistinct(Live(es), le);
    forall i | 0 <= i < |members|
      ensures Get(es, members[i].key) == Some(members[i].value)
    {
      GetMember(es, members[i]);
    }
    forall key
      ensures key in Keys(members) <==> Get(es, key).Some?
    {
      if Get(es, key).Some? {
        assert Entry(key, Get(es, key).value) in members;
        var i :| 0 <= i < |members| && members[i] == Entry(key, Get(es, key).value);
        assert Keys(members)[i] == key;
      }
    }
  }

  lemma {:induction false} CanonEqualMeansSame(v: Value, w: Value, le: Collation)
    requires Proper(v) && Proper(w) && Canonicalisable(v) && Canonicalisable(w)
    requires Canon(v, le) == Canon(w, le)
    ensures Same(v, w)
    decreases v
  {
    match (v, w)
    case (Arr(a), Arr(b)) =>
      var ca, cb := CanonItems(a, le), CanonItems(b, le);
      forall i | 0 <= i < |a|
        ensures Same(a[i], b[i])
      {
        assert ca[i] == cb[i];
        CanonEqualMeansSame(a[i], b[i], le);
      }
    case (Obj(a), Obj(b)) => CanonEqualObjects(v, w, le);
    case _ =>
  }

  lemma {:induction false} CanonEqualObjects(v: Value, w: Value, le: Collation)
    requires v.Obj? && w.Obj?
    requires Proper(v) && Proper(w) && Canonicalisable(v) && Canonicalisable(w)
    requires Canon(v, le) == Canon(w, le)
    ensures Same(v, w)
    decreases v, 0
  {
    var a, b := v.entries, w.entries;
    var ma, mb := Members(a, le), Members(b, le);
    MembersLookup(a, le);
    MembersLookup(b, le);
    LiveOnly(a, le);
    LiveOnly(b, le);
    assert CanonMembers(a, le) == CanonMembers(b, le);
    forall i | 0 <= i < |ma|
      ensures ma[i].key == mb[i].key && Same(ma[i].value, mb[i].value)
    {
      assert CanonMembers(a, le)[i] == CanonMembers(b, le)[i];
      assert ma[i] in a && mb[i] in b;
      CanonEqualMeansSame(ma[i].value, mb[i].value, le);
    }
    assert Keys(ma) == Keys(mb);
    SameByMembers(v, w, le);
  }

  lemma SameByMembers(v: Value, w: Value, le: Collation)
    requires v.Obj? && w.Obj? && Proper(v) && Proper(w)
    requires Keys(Members(v.entries, le)) == Keys(Members(w.entries, le))
    requires forall i | 0 <= i < |Members(v.entries, le)| ::
      Same(Members(v.entries, le)[i].value, Members(w.entries, le)[i].value)
    ensures Same(v, w)
  {
    var a, b := v.entries, w.entries;
    var ma, mb := Members(a, le), Members(b, le);
    MembersLookup(a, le);
    MembersLookup(b, le);
    forall key
      ensures match (Get(a, key), Get(b, key))
        case (Some(x), Some(y)) => Same(x, y)
        case (None, None) => true
        case _ => false
    {
      if key in Keys(ma) {
        var i :| 0 <= i < |ma| && Keys(ma)[i] == key;
        assert Keys(mb)[i] == key;
      }
    }
  }

  /** Injectivity: two values with one canonical text hold the same data. */
  lemma EqualTextMeansSame(v: Value, w: Value, le: Collation)
    requires Proper(v) && Proper(w)
    requires Serialize(v, le).Ok? && Serialize(v, le) == Serialize(w, le)
    ensures Same(v, w)
  {
    SerializePrintsCanon(v, le);
    SerializePrintsCanon(w, le);
    ReadBack(v, le, []);
    ReadBack(w, le, []);
    CanonEqualMeansSame(v, w, le);
  }

  // ----- The same data means equal texts, exactly when the collation separates keys -----

  lemma SortedMembers(es: seq<Entry>, le: Collation)
    requires DistinctKeys(es) && TotalPreorder(le)
    ensures SortedKeys(Keys(Members(es, le)), le)
  {
    MembersLookup(es, le);
    SortSorts(Live(es), le);
  }

  lemma {:induction false} SameMeansCanonEqual(v: Value, w: Value, le: Collation)
    requires TotalPreorder(le) && Separating(le)
    requires Proper(v) && Proper(w) && Canonicalisable(v) && Canonicalisable(w)
    requires Same(v, w)
    ensures Canon(v, le) == Canon(w, le)
    decreases v
  {
    match (v, w)
    case (Arr(a), Arr(b)) =>
      forall i | 0 <= i < |a|
        ensures CanonItems(a, le)[i] == CanonItems(b, le)[i]
      {
        SameMeansCanonEqual(a[i], b[i], le);
      }
    case (Obj(a), Obj(b)) => SameObjectsCanonEqual(v, w, le);
    case _ =>
  }

  lemma {:induction false} SameObjectsCanonEqual(v: Value, w: Value, le: Collation)
    requires v.Obj? && w.Obj? && TotalPreorder(le) && Separating(le)
    requires Proper(v) && Proper(w) && Canonicalisable(v) && Canonicalisable(w)
    requires Same(v, w)
    ensures Canon(v, le) == Canon(w, le)
    decreases v, 0
  {
    var a, b := v.entries, w.entries;
    var ma, mb := Members(a, le), Members(b, le);
    MembersLookup(a, le);
    MembersLookup(b, le);
    SortedMembers(a, le);
    SortedMembers(b, le);
    assert forall key :: Get(a, key).Some? <==> Get(b, key).Some?;
    UniqueSortedKeys(Keys(ma), Keys(mb), le);
    assert |ma| == |mb|;
    forall i | 0 <= i < |ma|
      ensures CanonMembers(a, le)[i] == CanonMembers(b, le)[i]
    {
      assert Keys(ma)[i] == Keys(mb)[i];
      assert ma[i] in a && mb[i] in b;
      assert Same(Get(a, ma[i].key).value, Get(b, ma[i].key).value);
      SameMeansCanonEqual(ma[i].value, mb[i].value, le);
    }
    assert CanonMembers(a, le) == CanonMembers(b, le);
  }

  /** Under a separating collation the text is equal exactly when the data is the same. */
  lemma EqualTextIffSame(v: Value, w: Value, le: Collation)
    requires TotalPreorder(le) && Separating(le)
    requires Proper(v) && Proper(w) && Canonicalisable(v) && Canonicalisable(w)
    ensures Serialize(v, le) == Serialize(w, le) <==> Same(v, w)
  {
    SerializePrintsCanon(v, le);
    SerializePrintsCanon(w, le);
    if Same(v, w) {
      SameMeansCanonEqual(v, w, le);
    } else if Serialize(v, le) == Serialize(w, le) {
      EqualTextMeansSame(v, w, le);
    }
  }

  /** An object with two empty members, in the order given. */
  function Pair(a: Text, b: Text): Value {
    Obj([Entry(a, Null), Entry(b, Null)])
  }

  lemma PairProper(a: Text, b: Text)
    requires a != b
    ensures Proper(Pair(a, b)) && Canonicalisable(Pair(a, b))
  {}

  lemma PairLookup(a: Text, b: Text, key: Text)
    ensures Get(Pair(a, b).entries, key) == if key == a || key == b then Some(Null) else None
  {
    var es := Pair(a, b).entries;
    assert es[1..] == [Entry(b, Null)] && es[1..][1..] == [];
  }

  lemma PairSame(a: Text, b: Text)
    ensures Same(Pair(a, b), Pair(b, a))
  {
    forall key
      ensures Get(Pair(a, b).entries, key) == Get(Pair(b, a).entries, key)
    {
      PairLookup(a, b, key);
      PairLookup(b, a, key);
    }
  }

  lemma PairCanon(a: Text, b: Text, le: Collation)
    requires a != b
    ensures Canon(Pair(a, b), le) == if le(a, b) then Pair(a, b) else Pair(b, a)
  {
    var es := Pair(a, b).entries;
    LiveOfLive(es);
    assert es[1..] == [Entry(b, Null)];
    assert Members(es, le) == if le(a, b) then es else Pair(b, a).entries;
    assert CanonMembers(es, le) == Members(es, le);
  }

  lemma PairTextDiffers(v: Value, w: Value, le: Collation, ge: Collation)
    requires Proper(v) && Proper(w) && Canonicalisable(v) && Canonicalisable(w)
    requires Canon(v, le) != Canon(w, ge)
    ensures Serialize(v, le) != Serialize(w, ge)
  {
    ReadBack(v, le, []);
    ReadBack(w, ge, []);
  }

  // ----- Canonical text is a fixpoint -----

  lemma {:induction false} CanonIsCanonical(v: Value, le: Collation)
    requires TotalPreorder(le) && Proper(v) && Canonicalisable(v)
    ensures Proper(Canon(v, le)) && Canonicalisable(Canon(v, le))
    ensures Canon(Canon(v, le), le) == Canon(v, le)
    decreases v
  {
    match v
    case Arr(items) =>
      var canon := CanonItems(items, le);
      forall i | 0 <= i < |items|
        ensures Proper(canon[i]) && Canonicalisable(canon[i]) && Canon(canon[i], le) == canon[i]
      {
        CanonIsCanonical(items[i], le);
      }
      assert CanonItems(canon, le) == canon;
    case Obj(es) => CanonObjectIsCanonical(v, le);
    case _ =>
  }

  lemma {:induction false} CanonObjectIsCanonical(v: Value, le: Collation)
    requires v.Obj? && TotalPreorder(le) && Proper(v) && Canonicalisable(v)
    ensures Proper(Canon(v, le)) && Canonicalisable(Canon(v, le))
    ensures Canon(Canon(v, le), le) == Canon(v, le)
    decreases v, 0
  {
    var members, canon := Members(v.entries, le), CanonMembers(v.entries, le);
    MembersLookup(v.entries, le);
    SortedMembers(v.entries, le);
    forall i | 0 <= i < |canon|
      ensures Proper(canon[i].value) && Canonicalisable(canon[i].value)
      ensures Canon(canon[i].value, le) == canon[i].value && !canon[i].value.Undefined?
    {
      assert members[i] in v.entries;
      CanonIsCanonical(members[i].value, le);
    }
    assert Keys(canon) == Keys(members);
    assert SortedByKey(canon, le) by {
      forall i, j | 0 <= i < j < |canon|
        ensures le(canon[i].key, canon[j].key)
      {
        assert le(Keys(members)[i], Keys(members)[j]);
      }
    }
    LiveOfLive(canon);
    SortOfSorted(canon, le);
    assert CanonMembers(canon, le) == canon;
  }

  /** Reading canonical text and printing it again gives the same text. */
  lemma Fixpoint(v: Value, le: Collation)
    requires TotalPreorder(le) && Proper(v) && Serialize(v, le).Ok?
    ensures var text := Serialize(v, le).value;
      Parse(text).Some? && Serialize(Parse(text).value, le) == Ok(text)
  {
    SerializePrintsCanon(v, le);
    CanonIsCanonical(v, le);
    ParsePrinted(Canon(v, le));
    SerializePrintsCanon(Canon(v, le), le);
  }
}
