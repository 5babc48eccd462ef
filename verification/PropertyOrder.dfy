/** The order in which objects list their properties, and what of it the canonical printer shows. */
module PropertyOrder {
  import opened Texts
  import opened Decimals
  import opened Json
  import opened JsonText
  import opened Canonical

  // ----- When two orders sort the same -----

  lemma {:induction false} InsertAgrees(e: Entry, es: seq<Entry>, le: Collation, ge: Collation)
    requires forall d | d in es :: le(e.key, d.key) == ge(e.key, d.key)
    ensures InsertByKey(e, es, le) == InsertByKey(e, es, ge)
  {
    if es != [] {
      assert es[0] in es;
      InsertAgrees(e, es[1..], le, ge);
    }
  }

  /** Inserting at the same place means comparing the same with everything there. */
  lemma {:induction false} InsertedAlike(e: Entry, es: seq<Entry>, le: Collation, ge: Collation)
    requires TotalPreorder(le) && TotalPreorder(ge) && SortedByKey(es, le) && SortedByKey(es, ge)
    requires e !in es && InsertByKey(e, es, le) == InsertByKey(e, es, ge)
    ensures forall i | 0 <= i < |es| :: le(e.key, es[i].key) == ge(e.key, es[i].key)
  {
    if es != [] {
      assert es[0] in es && es[0] != e;
      assert InsertByKey(e, es, le)[0] == InsertByKey(e, es, ge)[0];
      if le(e.key, es[0].key) {
        forall i | 0 <= i < |es|
          ensures le(e.key, es[i].key) && ge(e.key, es[i].key)
        {
          assert i == 0 || (le(es[0].key, es[i].key) && ge(es[0].key, es[i].key));
        }
      } else {
        var tail := es[1..];
        Head(es[0], InsertByKey(e, tail, le));
        Head(es[0], InsertByKey(e, tail, ge));
        InsertedAlike(e, tail, le, ge);
        assert forall i | 1 <= i < |es| :: es[i] == tail[i - 1];
      }
    }
  }

  /** Dropping the inserted entry gives back what it was inserted into. */
  function DropEntry(es: seq<Entry>, e: Entry): seq<Entry> {
    if es == [] then [] else if es[0] == e then es[1..] else [es[0]] + DropEntry(es[1..], e)
  }

  lemma {:induction false} DropInserted(e: Entry, es: seq<Entry>, le: Collation)
    requires e !in es
    ensures DropEntry(InsertByKey(e, es, le), e) == es
  {
    if es != [] && !le(e.key, es[0].key) {
      assert es[0] in es;
      DropInserted(e, es[1..], le);
      Head(es[0], InsertByKey(e, es[1..], le));
      Uncons(es);
    } else {
      Head(e, es);
    }
  }

  /** Each property is compared with every later one alike. */
  predicate ComparesAlike(es: seq<Entry>, le: Collation, ge: Collation) {
    forall p, q | 0 <= p < q < |es| :: le(es[p].key, es[q].key) == ge(es[p].key, es[q].key)
  }

  lemma ComparesAlikeTail(e: Entry, tail: seq<Entry>, le: Collation, ge: Collation)
    requires ComparesAlike([e] + tail, le, ge)
    ensures ComparesAlike(tail, le, ge)
    ensures forall i | 0 <= i < |tail| :: le(e.key, tail[i].key) == ge(e.key, tail[i].key)
  {
    var es := [e] + tail;
    assert forall i | 0 <= i < |tail| :: tail[i] == es[i + 1];
    assert es[0] == e;
  }

  lemma ComparesAlikeStep(e: Entry, tail: seq<Entry>, le: Collation, ge: Collation)
    ensures ComparesAlike([e] + tail, le, ge) <==>
      ComparesAlike(tail, le, ge) && forall i | 0 <= i < |tail| :: le(e.key, tail[i].key) == ge(e.key, tail[i].key)
  {
    var es := [e] + tail;
    if ComparesAlike(es, le, ge) {
      ComparesAlikeTail(e, tail, le, ge);
    }
    if ComparesAlike(tail, le, ge) && forall i | 0 <= i < |tail| :: le(e.key, tail[i].key) == ge(e.key, tail[i].key) {
      forall p, q | 0 <= p < q < |es|
        ensures le(es[p].key, es[q].key) == ge(es[p].key, es[q].key)
      {
        assert es[q] == tail[q - 1];
        if p > 0 { assert es[p] == tail[p - 1]; }
      }
    }
  }

  /** Two orders sort a list of distinct keys alike exactly when they compare each earlier key alike with each later. */
  lemma {:induction false} SortAgreesIff(es: seq<Entry>, le: Collation, ge: Collation)
    requires TotalPreorder(le) && TotalPreorder(ge) && DistinctKeys(es)
    ensures SortByKey(es, le) == SortByKey(es, ge) <==> ComparesAlike(es, le, ge)
  {
    if es != [] {
      hide TotalPreorder, ComparesAlike, InsertByKey;
      var e, tail := es[0], es[1..];
      Uncons(es);
      var s, t := SortByKey(tail, le), SortByKey(tail, ge);
      FreshHead(es);
      ComparesAlikeStep(e, tail, le, ge);
      SortAgreesIff(tail, le, ge);
      DropInserted(e, s, le);
      DropInserted(e, t, ge);
      SortSorts(tail, le);
      SortSorts(tail, ge);
      if s == t {
        if InsertByKey(e, s, le) == InsertByKey(e, t, ge) {
          InsertedAlike(e, s, le, ge);
          forall i | 0 <= i < |tail|
            ensures le(e.key, tail[i].key) == ge(e.key, tail[i].key)
          {
            assert tail[i] in s;
          }
        } else if forall i | 0 <= i < |tail| :: le(e.key, tail[i].key) == ge(e.key, tail[i].key) {
          assert forall d | d in s :: d in tail;
          InsertAgrees(e, s, le, ge);
        }
      }
    }
  }

  lemma FreshHead(es: seq<Entry>)
    requires es != [] && DistinctKeys(es)
    ensures es[0] !in es[1..] && DistinctKeys(es[1..])
  {}

  /** At every depth both orders compare each property listed alike with every later one. */
  predicate OrdersAgree(v: Value, le: Collation, ge: Collation) {
    match v
    case Arr(items) => forall i | 0 <= i < |items| :: OrdersAgree(items[i], le, ge)
    case Obj(es) =>
      ComparesAlike(Live(es), le, ge) && forall i | 0 <= i < |es| :: OrdersAgree(es[i].value, le, ge)
    case _ => true
  }

  lemma {:induction false} CanonAgreesIff(v: Value, le: Collation, ge: Collation)
    requires TotalPreorder(le) && TotalPreorder(ge) && Proper(v) && Canonicalisable(v)
    ensures Canon(v, le) == Canon(v, ge) <==> OrdersAgree(v, le, ge)
    decreases v
  {
    match v
    case Arr(items) =>
      forall i | 0 <= i < |items| { CanonAgreesIff(items[i], le, ge); }
      EqualPointwise(CanonItems(items, le), CanonItems(items, ge));
    case Obj(es) =>
      forall e | e in Live(es)
        ensures Canonicalisable(e.value)
        ensures Canon(e.value, le) == Canon(e.value, ge) <==> OrdersAgree(e.value, le, ge)
      {
        assert e in es;
        CanonAgreesIff(e.value, le, ge);
      }
      ObjectAgreesIff(es, le, ge);
    case _ =>
  }

  lemma EqualPointwise<T>(a: seq<T>, b: seq<T>)
    ensures a == b <==> |a| == |b| && forall i | 0 <= i < |a| :: a[i] == b[i]
  {}

  lemma LiveAgree(es: seq<Entry>, le: Collation, ge: Collation)
    ensures (forall i | 0 <= i < |es| :: OrdersAgree(es[i].value, le, ge)) <==>
      forall e | e in Live(es) :: OrdersAgree(e.value, le, ge)
  {
    forall i | 0 <= i < |es|
      ensures es[i] in Live(es) || OrdersAgree(es[i].value, le, ge)
    {
      assert es[i] in es;
      if es[i].value.Undefined? { assert OrdersAgree(es[i].value, le, ge); }
    }
  }

  lemma ObjectAgreesIff(es: seq<Entry>, le: Collation, ge: Collation)
    requires TotalPreorder(le) && TotalPreorder(ge) && DistinctKeys(es) && Canonicalisable(Obj(es))
    requires forall e | e in Live(es) ::
      && Canonicalisable(e.value)
      && (Canon(e.value, le) == Canon(e.value, ge) <==> OrdersAgree(e.value, le, ge))
    ensures CanonMembers(es, le) == CanonMembers(es, ge) <==> OrdersAgree(Obj(es), le, ge)
  {
    hide TotalPreorder, ComparesAlike, Canon, OrdersAgree, SortByKey, InsertByKey, DistinctKeys, Live;
    var m, n := Members(es, le), Members(es, ge);
    var a, b := CanonMembers(es, le), CanonMembers(es, ge);
    LiveDistinct(es);
    SortAgreesIff(Live(es), le, ge);
    LiveAgree(es, le, ge);
    ObjectOrders(es, le, ge);
    MembersAreLive(es, le);
    MembersAreLive(es, ge);
    if a == b {
      assert Keys(m) == Keys(n) by { SameKeysOfCanon(es, le, ge); }
      SameKeysSameEntries(m, n, Live(es));
      forall e | e in Live(es)
        ensures OrdersAgree(e.value, le, ge)
      {
        var i :| 0 <= i < |m| && m[i] == e;
        assert a[i] == b[i];
      }
    }
    if OrdersAgree(Obj(es), le, ge) {
      forall i | 0 <= i < |m|
        ensures a[i] == b[i]
      {
        assert m[i] in Live(es);
      }
      EqualPointwise(a, b);
    }
  }

  lemma ObjectOrders(es: seq<Entry>, le: Collation, ge: Collation)
    ensures OrdersAgree(Obj(es), le, ge) <==>
      ComparesAlike(Live(es), le, ge) && forall i | 0 <= i < |es| :: OrdersAgree(es[i].value, le, ge)
  {}

  lemma MembersAreLive(es: seq<Entry>, le: Collation)
    ensures forall e :: e in Members(es, le) <==> e in Live(es)
  {}

  lemma SameKeysOfCanon(es: seq<Entry>, le: Collation, ge: Collation)
    requires Canonicalisable(Obj(es)) && CanonMembers(es, le) == CanonMembers(es, ge)
    ensures Keys(Members(es, le)) == Keys(Members(es, ge))
  {
    var a, b := CanonMembers(es, le), CanonMembers(es, ge);
    assert forall i | 0 <= i < |a| :: a[i].key == Members(es, le)[i].key && b[i].key == Members(es, ge)[i].key;
  }

  lemma SameKeysSameEntries(a: seq<Entry>, b: seq<Entry>, es: seq<Entry>)
    requires DistinctKeys(es) && Keys(a) == Keys(b)
    requires (forall e | e in a :: e in es) && (forall e | e in b :: e in es)
    ensures a == b
  {
    assert |Keys(a)| == |Keys(b)|;
    forall i | 0 <= i < |a|
      ensures a[i] == b[i]
    {
      assert Keys(a)[i] == Keys(b)[i];
      assert a[i] in es && b[i] in es;
      var j :| 0 <= j < |es| && es[j] == a[i];
      var k :| 0 <= k < |es| && es[k] == b[i];
      assert j == k;
    }
  }

  // ----- The order of properties -----

  /** An array index: a natural below 2^32 - 1 in plain decimal. */
  predicate IsArrayIndex(key: Text) {
    IsNumeral(key) && ReadNat(key) < 0xFFFF_FFFF
  }

  /** The array indices are the numerals of the naturals below 2^32 - 1. */
  lemma IsArrayIndexIff(key: Text)
    ensures IsArrayIndex(key) <==> exists n: nat :: n < 4_294_967_295 && key == PrintNat(n)
  {
    if IsArrayIndex(key) {
      NumeralIs(key);
      assert key == PrintNat(ReadNat(key));
    }
    forall n: nat | n < 4_294_967_295 && key == PrintNat(n)
      ensures IsArrayIndex(key)
    {
      PrintedIsNumeral(n);
      ReadPrintNat(n);
    }
  }

  /** An object can list `a` before `b`: array indices come first, in ascending order. */
  predicate MayPrecede(a: Text, b: Text) {
    if IsArrayIndex(a) && IsArrayIndex(b) then ReadNat(a) < ReadNat(b) else IsArrayIndex(a) || !IsArrayIndex(b)
  }

  /** Every object lists its properties as `Object.entries` does. */
  predicate Listed(v: Value) {
    match v
    case Arr(items) => forall i | 0 <= i < |items| :: Listed(items[i])
    case Obj(es) =>
      && (forall i, j | 0 <= i < j < |es| :: MayPrecede(es[i].key, es[j].key))
      && forall i | 0 <= i < |es| :: Listed(es[i].value)
    case _ => true
  }

  /** The collation tells any two names apart that are not array indices. */
  ghost predicate SeparatesNames(le: Collation) {
    forall a, b | !IsArrayIndex(a) && !IsArrayIndex(b) :: le(a, b) && le(b, a) ==> a == b
  }

  /** The order of listing, in which names that are not array indices tie. */
  predicate ListedBy(a: Text, b: Text) {
    if IsArrayIndex(a) && IsArrayIndex(b) then ReadNat(a) <= ReadNat(b) else IsArrayIndex(a) || !IsArrayIndex(b)
  }

  /** The collation, with its ties broken by the order of listing. */
  function Refined(le: Collation): Collation {
    (a, b) => le(a, b) && (le(b, a) ==> ListedBy(a, b))
  }

  lemma RefinedIsTotal(le: Collation)
    requires TotalPreorder(le)
    ensures TotalPreorder(Refined(le))
  {
    var ge := Refined(le);
    hide IsArrayIndex, ReadNat;
    forall a, b
      ensures ge(a, b) || ge(b, a)
    {
      assert le(a, b) || le(b, a);
    }
    forall a, b, c | ge(a, b) && ge(b, c)
      ensures ge(a, c)
    {
      assert le(a, c);
      if le(c, a) {
        assert le(b, a) && le(c, b);
      }
    }
  }

  lemma RefinedSeparates(le: Collation)
    requires SeparatesNames(le)
    ensures Separating(Refined(le))
  {
    var ge := Refined(le);
    forall a, b | ge(a, b) && ge(b, a)
      ensures a == b
    {
      assert le(a, b) && le(b, a) && ListedBy(a, b) && ListedBy(b, a);
      if IsArrayIndex(a) {
        assert IsArrayIndex(b);
        NumeralIs(a);
        NumeralIs(b);
      } else {
        assert !IsArrayIndex(b);
      }
    }
  }

  lemma ComparesRefined(a: Text, b: Text, le: Collation)
    requires MayPrecede(a, b)
    ensures le(a, b) == Refined(le)(a, b)
  {}

  /** On objects that exist, breaking the ties of a collation by the order of listing changes nothing. */
  lemma {:induction false} RefinedAgrees(v: Value, le: Collation)
    requires Listed(v)
    ensures OrdersAgree(v, le, Refined(le))
    decreases v
  {
    match v
    case Arr(items) => forall i | 0 <= i < |items| { RefinedAgrees(items[i], le); }
    case Obj(es) =>
      forall i | 0 <= i < |es| { RefinedAgrees(es[i].value, le); }
      LiveListed(es);
      forall p, q | 0 <= p < q < |Live(es)|
        ensures le(Live(es)[p].key, Live(es)[q].key) == Refined(le)(Live(es)[p].key, Live(es)[q].key)
      {
        ComparesRefined(Live(es)[p].key, Live(es)[q].key, le);
      }
    case _ =>
  }

  lemma {:induction false} LiveListed(es: seq<Entry>)
    requires forall i, j | 0 <= i < j < |es| :: MayPrecede(es[i].key, es[j].key)
    ensures forall i, j | 0 <= i < j < |Live(es)| :: MayPrecede(Live(es)[i].key, Live(es)[j].key)
  {
    if es != [] {
      LiveListed(es[1..]);
      forall j | 0 <= j < |Live(es[1..])|
        ensures MayPrecede(es[0].key, Live(es[1..])[j].key)
      {
        assert Live(es[1..])[j] in es[1..];
        var k :| 0 <= k < |es[1..]| && es[1..][k] == Live(es[1..])[j];
        assert es[k + 1] == es[1..][k];
      }
    }
  }

  // ----- Independence from insertion order -----

  /** The text of a value that exists is that under the refined collation. */
  lemma RefinedText(v: Value, le: Collation)
    requires TotalPreorder(le) && Proper(v) && Canonicalisable(v) && Listed(v)
    ensures Serialize(v, le) == Serialize(v, Refined(le))
  {
    hide Serialize, Canon, OrdersAgree, Refined, Listed;
    RefinedIsTotal(le);
    RefinedAgrees(v, le);
    CanonAgreesIff(v, le, Refined(le));
    SerializePrintsCanon(v, le);
    SerializePrintsCanon(v, Refined(le));
  }

  /** If the collation separates names, the texts of two values are equal exactly when the data is the same. */
  lemma ListedTextIffSame(v: Value, w: Value, le: Collation)
    requires TotalPreorder(le) && SeparatesNames(le) && Listed(v) && Listed(w)
    requires Proper(v) && Proper(w) && Canonicalisable(v) && Canonicalisable(w)
    ensures Serialize(v, le) == Serialize(w, le) <==> Same(v, w)
  {
    hide Serialize, Same, Refined, Listed, SeparatesNames;
    RefinedIsTotal(le);
    RefinedSeparates(le);
    RefinedText(v, le);
    RefinedText(w, le);
    EqualTextIffSame(v, w, Refined(le));
  }

  /** Equal data always prints as equal text. */
  ghost predicate OrderIndependent(le: Collation) {
    forall v, w | Sorts(v) && Sorts(w) && Same(v, w) :: Serialize(v, le) == Serialize(w, le)
  }

  /** A value that exists and that the printer accepts. */
  ghost predicate Sorts(v: Value) {
    Proper(v) && Canonicalisable(v) && Listed(v)
  }

  lemma OrderMatters(v: Value, w: Value, le: Collation)
    requires Sorts(v) && Sorts(w) && Same(v, w) && Serialize(v, le) != Serialize(w, le)
    ensures !OrderIndependent(le)
  {}

  /**
   * The printer is blind to insertion order exactly when the collation separates names that are not
   * array indices. A host whose `localeCompare` calls two such names equal prints their two orders
   * differently; array indices have one order only, which stable sorting keeps.
   */
  lemma OrderIndependentIff(le: Collation)
    requires TotalPreorder(le)
    ensures OrderIndependent(le) <==> SeparatesNames(le)
  {
    hide Serialize, Same, IsArrayIndex;
    if SeparatesNames(le) {
      forall v, w | Sorts(v) && Sorts(w) && Same(v, w)
        ensures Serialize(v, le) == Serialize(w, le)
      {
        ListedTextIffSame(v, w, le);
      }
    } else {
      var a, b :| !IsArrayIndex(a) && !IsArrayIndex(b) && le(a, b) && le(b, a) && a != b;
      TiedPairDiffers(a, b, le);
    }
  }

  lemma TiedPairDiffers(a: Text, b: Text, le: Collation)
    requires a != b && le(a, b) && le(b, a) && MayPrecede(a, b) && MayPrecede(b, a)
    ensures !OrderIndependent(le)
  {
    hide Serialize, Same, Canon;
    PairProper(a, b);
    PairProper(b, a);
    PairSame(a, b);
    PairCanon(a, b, le);
    PairCanon(b, a, le);
    PairListed(a, b);
    PairListed(b, a);
    assert Pair(a, b).entries[0] != Pair(b, a).entries[0];
    PairTextDiffers(Pair(a, b), Pair(b, a), le, le);
    OrderMatters(Pair(a, b), Pair(b, a), le);
  }

  lemma PairListed(a: Text, b: Text)
    requires MayPrecede(a, b)
    ensures Listed(Pair(a, b))
  {}

  // ----- Reading the text into an object of the host -----

  /** The object a host builds from members in the order of a text, at every depth. */
  function Relisted(v: Value): Value
    requires Canonicalisable(v)
  {
    Canon(v, ListedBy)
  }

  lemma ListedByIsTotal()
    ensures TotalPreorder(ListedBy)
  {
    hide IsArrayIndex, ReadNat;
  }

  lemma {:induction false} RelistedIsListed(v: Value)
    requires Proper(v) && Canonicalisable(v)
    ensures Listed(Relisted(v))
    decreases v
  {
    match v
    case Arr(items) => forall i | 0 <= i < |items| { RelistedIsListed(items[i]); }
    case Obj(es) =>
      var members, listed := Members(es, ListedBy), CanonMembers(es, ListedBy);
      ListedByIsTotal();
      SortedMembers(es, ListedBy);
      forall i | 0 <= i < |listed|
        ensures Listed(listed[i].value) && listed[i].key == Keys(members)[i]
      {
        assert members[i] in es;
        RelistedIsListed(members[i].value);
      }
      forall i, j | 0 <= i < j < |listed|
        ensures MayPrecede(listed[i].key, listed[j].key)
      {
        StrictlyListed(Keys(members)[i], Keys(members)[j]);
      }
    case _ =>
  }

  lemma StrictlyListed(a: Text, b: Text)
    requires ListedBy(a, b) && a != b
    ensures MayPrecede(a, b)
  {
    if IsArrayIndex(a) && IsArrayIndex(b) {
      NumeralIs(a);
      NumeralIs(b);
    }
  }

  lemma CanonIsSame(v: Value, le: Collation)
    requires TotalPreorder(le) && Proper(v) && Canonicalisable(v)
    ensures Same(v, Canon(v, le)) && Proper(Canon(v, le)) && Canonicalisable(Canon(v, le))
  {
    hide Canon, Same;
    CanonIsCanonical(v, le);
    CanonEqualMeansSame(v, Canon(v, le), le);
  }

  /**
   * Reading canonical text into an object of the host, which may move its array indices to the front,
   * and printing that gives the text back.
   */
  lemma ReadObjectPrintsAlike(v: Value, le: Collation)
    requires TotalPreorder(le) && SeparatesNames(le) && Proper(v) && Canonicalisable(v) && Listed(v)
    ensures Serialize(v, le).Ok?
    ensures var read := Parse(Serialize(v, le).value);
      && read.Some? && Canonicalisable(read.value)
      && Listed(Relisted(read.value)) && Serialize(Relisted(read.value), le) == Serialize(v, le)
  {
    hide Serialize, Canon, Same, Refined, Listed, SeparatesNames, Parse, Proper, Canonicalisable;
    var w, ge := Canon(v, le), Refined(le);
    ReadBackWhole(v, le);
    CanonIsSame(v, le);
    ListedByIsTotal();
    CanonIsSame(w, ListedBy);
    RelistedIsListed(w);
    RefinedIsTotal(le);
    RefinedSeparates(le);
    EqualTextIffSame(v, w, ge);
    EqualTextIffSame(w, Relisted(w), ge);
    RefinedText(v, le);
    RefinedText(Relisted(w), le);
  }

  lemma ReadBackWhole(v: Value, le: Collation)
    requires TotalPreorder(le) && Proper(v) && Canonicalisable(v)
    ensures Serialize(v, le).Ok? && Parse(Serialize(v, le).value) == Some(Canon(v, le))
  {
    SerializePrintsCanon(v, le);
    CanonIsCanonical(v, le);
    ParsePrinted(Canon(v, le));
  }
}
