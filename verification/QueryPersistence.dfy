/** The stored query cache: bigints tagged through JSON, and countdowns moved on when restored. */
module QueryPersistence {
  import opened Texts
  import opened Decimals
  import opened Json
  import opened JsonText

  const BIGINT_TAG: Text := Ascii("__dc_bigint")
  const SECONDS_LEFT: Text := Ascii("secondsLeft")

  // ----- Writing: JSON.stringify with the replacer -----

  function Tagged(n: int): Value {
    Obj([Entry(BIGINT_TAG, Str(PrintInt(n)))])
  }

  /** The JSON tree written for `v`: bigints tagged, `undefined` members dropped, other gaps null. */
  function Encode(v: Value): Value
    decreases v
  {
    match v
    case Undefined => Null
    case NonFinite(_) => Null
    case BigInt(n) => Tagged(n)
    case Arr(items) => Arr(EncodeItems(items))
    case Obj(es) => Obj(EncodeMembers(es))
    case _ => v
  }

  function EncodeItems(items: seq<Value>): (r: seq<Value>)
    ensures |r| == |items| && forall i | 0 <= i < |items| :: r[i] == Encode(items[i])
    decreases items
  {
    seq(|items|, i requires 0 <= i < |items| => Encode(items[i]))
  }

  function EncodeMembers(es: seq<Entry>): (r: seq<Entry>)
    ensures |r| == |Live(es)|
    ensures forall i | 0 <= i < |r| :: r[i] == Entry(Live(es)[i].key, Encode(Live(es)[i].value))
    decreases es
  {
    var live := Live(es);
    assert forall i | 0 <= i < |live| :: live[i] in es;
    seq(|live|, i requires 0 <= i < |live| => Entry(live[i].key, Encode(live[i].value)))
  }

  lemma {:induction false} EncodeIsJson(v: Value)
    requires Proper(v)
    ensures IsJson(Encode(v))
    decreases v
  {
    match v
    case Arr(items) => forall i | 0 <= i < |items| { EncodeIsJson(items[i]); }
    case Obj(es) =>
      forall i | 0 <= i < |Live(es)|
        ensures IsJson(EncodeMembers(es)[i].value)
      {
        assert Live(es)[i] in es;
        EncodeIsJson(Live(es)[i].value);
      }
    case _ =>
  }

  function SerializeClient(v: Value): Text
    requires Proper(v)
  {
    EncodeIsJson(v);
    Print(Encode(v))
  }

  // ----- Reading: JSON.parse with the reviver -----

  datatype LoadError = Malformed | NotABigInt | NotAClient

  /** `BigInt(value)` for the values a tag can hold. */
  function ToBigInt(v: Value): Result<Value, LoadError> {
    match v
    case BigInt(_) => Ok(v)
    case Bool(flag) => Ok(BigInt(if flag then 1 else 0))
    case Num(n) =>
      if n.fraction != [] then Err(NotABigInt)
      else var whole: int := n.whole; Ok(BigInt(if n.negative then -whole else whole))
    case Str(s) =>
      (match ReadInt(s)
       case Some(n) => Ok(BigInt(n))
       case None => Err(NotABigInt))
    case _ => Err(NotABigInt)
  }

  /** The reviver, innermost values first. */
  function Revive(v: Value): Result<Value, LoadError>
    decreases v
  {
    match v
    case Arr(items) =>
      (match AllOk(ReviveItems(items))
       case Ok(revived) => Ok(Arr(revived))
       case Err(e) => Err(e))
    case Obj(es) =>
      (match AllOk(ReviveMembers(es))
       case Ok(revived) => ReviveObject(revived)
       case Err(e) => Err(e))
    case _ => Ok(v)
  }

  function ReviveObject(es: seq<Entry>): Result<Value, LoadError> {
    match Get(es, BIGINT_TAG)
    case Some(tagged) => ToBigInt(tagged)
    case None => Ok(Obj(es))
  }

  function ReviveItems(items: seq<Value>): (r: seq<Result<Value, LoadError>>)
    ensures |r| == |items| && forall i | 0 <= i < |items| :: r[i] == Revive(items[i])
    decreases items
  {
    seq(|items|, i requires 0 <= i < |items| => Revive(items[i]))
  }

  function ReviveMembers(es: seq<Entry>): (r: seq<Result<Entry, LoadError>>)
    ensures |r| == |es| && forall i | 0 <= i < |es| :: r[i] == Rekey(es[i].key, Revive(es[i].value))
    decreases es
  {
    seq(|es|, i requires 0 <= i < |es| => Rekey(es[i].key, Revive(es[i].value)))
  }

  function Rekey(key: Text, child: Result<Value, LoadError>): Result<Entry, LoadError> {
    match child
    case Ok(v) => Ok(Entry(key, v))
    case Err(e) => Err(e)
  }

  function Load(cached: Text): Result<Value, LoadError> {
    match Parse(cached)
    case Some(v) => Revive(v)
    case None => Err(Malformed)
  }

  // ----- Ageing -----

  const ZERO := Number(false, 0, [])

  /** `Math.max(0, n - elapsed)`. */
  function AgeNumber(n: Number, elapsed: nat): Number {
    if n.negative || n.whole < elapsed then ZERO else n.(whole := n.whole - elapsed)
  }

  function AgeSpecial(s: Special): Value {
    if s == NegativeInfinity then Num(ZERO) else NonFinite(s)
  }

  /** `advanceCountdowns`. */
  function Age(v: Value, elapsed: nat): Value
    decreases v, 1
  {
    match v
    case Arr(items) => Arr(AgeItems(items, elapsed))
    case Obj(es) => Obj(AgeMembers(es, elapsed))
    case _ => v
  }

  function AgeChild(key: Text, v: Value, elapsed: nat): Value
    decreases v, 2
  {
    if key == SECONDS_LEFT && v.Num? then Num(AgeNumber(v.number, elapsed))
    else if key == SECONDS_LEFT && v.NonFinite? then AgeSpecial(v.special)
    else Age(v, elapsed)
  }

  function AgeItems(items: seq<Value>, elapsed: nat): (r: seq<Value>)
    ensures |r| == |items| && forall i | 0 <= i < |items| :: r[i] == Age(items[i], elapsed)
    decreases items, 0
  {
    seq(|items|, i requires 0 <= i < |items| => Age(items[i], elapsed))
  }

  function AgeMembers(es: seq<Entry>, elapsed: nat): (r: seq<Entry>)
    ensures |r| == |es|
    ensures forall i | 0 <= i < |es| :: r[i] == Entry(es[i].key, AgeChild(es[i].key, es[i].value, elapsed))
    decreases es, 0
  {
    seq(|es|, i requires 0 <= i < |es| => Entry(es[i].key, AgeChild(es[i].key, es[i].value, elapsed)))
  }

  /** The least whole number that is not below `n`. */
  function Ceiling(n: Number): int {
    var whole: int := n.whole;
    if n.negative then -whole else if n.fraction == [] then whole else whole + 1
  }

  /** `Math.max(0, Math.floor((now - dataUpdatedAt) / 1000))`. */
  function Elapsed(now: int, dataUpdatedAt: Number): nat {
    if now < Ceiling(dataUpdatedAt) then 0 else (now - Ceiling(dataUpdatedAt)) / 1000
  }

  // ----- Round trip -----

  /** No `undefined`, no non-finite number, and no object that owns the bigint tag. */
  predicate Storable(v: Value) {
    match v
    case Undefined => false
    case NonFinite(_) => false
    case Arr(items) => forall i | 0 <= i < |items| :: Storable(items[i])
    case Obj(es) => forall i | 0 <= i < |es| :: es[i].key != BIGINT_TAG && Storable(es[i].value)
    case _ => true
  }

  lemma TaggedRevives(n: int)
    ensures Revive(Tagged(n)) == Ok(BigInt(n))
  {
    var es := Tagged(n).entries;
    ReadPrintInt(n);
    assert AllOk(ReviveMembers(es)).value == es;
  }

  lemma NoTag(es: seq<Entry>)
    requires forall i | 0 <= i < |es| :: es[i].key != BIGINT_TAG
    ensures Get(es, BIGINT_TAG) == None
  {}

  /** Replacer and reviver are inverse: bigints of any size and sign, at any depth. */
  lemma {:induction false} StorableRevives(v: Value)
    requires Storable(v)
    ensures Revive(Encode(v)) == Ok(v)
    decreases v
  {
    match v
    case BigInt(n) => TaggedRevives(n);
    case Arr(items) =>
      var results := ReviveItems(EncodeItems(items));
      forall i | 0 <= i < |items|
        ensures results[i] == Ok(items[i])
      {
        StorableRevives(items[i]);
      }
      assert AllOk(results).value == items;
    case Obj(es) =>
      LiveOfLive(es);
      var results := ReviveMembers(EncodeMembers(es));
      forall i | 0 <= i < |es|
        ensures results[i] == Ok(es[i])
      {
        StorableRevives(es[i].value);
      }
      assert AllOk(results).value == es;
      NoTag(es);
    case _ =>
  }

  /** A bigint is written as an object whose one member, the tag, holds its digits. */
  lemma BigIntIsTagged(n: int) returns (digits: Text)
    ensures IsNumberText(digits, Number(n < 0, if n < 0 then -n else n, []))
    ensures Encode(BigInt(n)) == Obj([Entry(Ascii("__dc_bigint"), Str(digits))])
  {
    digits := PrintInt(n);
    IntegerTextIs(n);
  }

  // ----- What JSON keeps of a tree -----

  /** No object owns the bigint tag. */
  predicate OwnsNoTag(v: Value) {
    match v
    case Arr(items) => forall i | 0 <= i < |items| :: OwnsNoTag(items[i])
    case Obj(es) =>
      forall i | 0 <= i < |es| ::
        es[i].value.Undefined? || (es[i].key != Ascii("__dc_bigint") && OwnsNoTag(es[i].value))
    case _ => true
  }

  /**
   * The tree as it comes back: objects lose their `undefined` members and keep the others in order;
   * an `undefined` or non-finite value that remains is null; all else, bigints included, is the same.
   */
  function Kept(v: Value): Value
    decreases v
  {
    match v
    case Undefined => Null
    case NonFinite(_) => Null
    case Arr(items) => Arr(seq(|items|, i requires 0 <= i < |items| => Kept(items[i])))
    case Obj(es) => Obj(KeptMembers(es))
    case _ => v
  }

  function KeptMembers(es: seq<Entry>): seq<Entry>
    decreases es
  {
    if es == [] then []
    else if es[0].value == Undefined then KeptMembers(es[1..])
    else [Entry(es[0].key, Kept(es[0].value))] + KeptMembers(es[1..])
  }

  lemma KeptStep(e: Entry, es: seq<Entry>)
    ensures KeptMembers([e] + es) ==
      if e.value.Undefined? then KeptMembers(es) else [Entry(e.key, Kept(e.value))] + KeptMembers(es)
  {
    Head(e, es);
  }

  lemma {:induction false} KeptMembersAre(es: seq<Entry>)
    ensures |KeptMembers(es)| == |Live(es)|
    ensures forall i | 0 <= i < |Live(es)| ::
      KeptMembers(es)[i] == Entry(Live(es)[i].key, Kept(Live(es)[i].value))
  {
    hide Kept;
    if es != [] {
      hide KeptMembers, Live;
      var e, tail := es[0], es[1..];
      Uncons(es);
      KeptMembersAre(tail);
      KeptStep(e, tail);
      LiveStep(e, tail);
    }
  }

  /** The round trip of any tree that owns no tag. */
  lemma {:induction false} KeptRevives(v: Value)
    requires OwnsNoTag(v)
    ensures Revive(Encode(v)) == Ok(Kept(v))
    decreases v
  {
    match v
    case BigInt(n) => TaggedRevives(n);
    case Arr(items) =>
      var results := ReviveItems(EncodeItems(items));
      forall i | 0 <= i < |items|
        ensures results[i] == Ok(Kept(items[i]))
      {
        KeptRevives(items[i]);
      }
      assert AllOk(results).value == Kept(v).items;
    case Obj(es) =>
      forall i | 0 <= i < |Live(es)|
        ensures Live(es)[i].key != BIGINT_TAG
        ensures Revive(Encode(Live(es)[i].value)) == Ok(Kept(Live(es)[i].value))
      {
        assert Live(es)[i] in es;
        KeptRevives(Live(es)[i].value);
      }
      KeptObject(es);
    case _ =>
  }

  lemma KeptObject(es: seq<Entry>)
    requires forall i | 0 <= i < |Live(es)| ::
      && Live(es)[i].key != BIGINT_TAG
      && Revive(Encode(Live(es)[i].value)) == Ok(Kept(Live(es)[i].value))
    ensures Revive(Encode(Obj(es))) == Ok(Kept(Obj(es)))
  {
    hide Live, Kept, KeptMembers;
    var results := ReviveMembers(EncodeMembers(es));
    KeptMembersAre(es);
    assert forall i | 0 <= i < |results| :: results[i] == Ok(KeptMembers(es)[i]);
    assert AllOk(results).value == KeptMembers(es);
    assert forall i | 0 <= i < |KeptMembers(es)| :: KeptMembers(es)[i].key == Live(es)[i].key;
    NoTag(KeptMembers(es));
    KeptIsObject(es);
  }

  lemma KeptIsObject(es: seq<Entry>)
    ensures Kept(Obj(es)) == Obj(KeptMembers(es))
  {}

  /** Writing a tree and reading it back, for every tree that owns no tag. */
  lemma WrittenReadsKept(v: Value)
    requires Proper(v) && OwnsNoTag(v)
    ensures Load(SerializeClient(v)) == Ok(Kept(v))
  {
    hide Kept;
    LoadIsRevive(v);
    KeptRevives(v);
  }

  lemma {:induction false} KeptIsStorable(v: Value)
    requires Proper(v) && OwnsNoTag(v)
    ensures Proper(Kept(v)) && Storable(Kept(v))
    decreases v
  {
    match v
    case Arr(items) => forall i | 0 <= i < |items| { KeptIsStorable(items[i]); }
    case Obj(es) =>
      KeptMembersAre(es);
      LiveDistinct(es);
      forall i | 0 <= i < |Live(es)|
        ensures Live(es)[i].key != BIGINT_TAG
        ensures Proper(Kept(Live(es)[i].value)) && Storable(Kept(Live(es)[i].value))
      {
        assert Live(es)[i] in es;
        KeptIsStorable(Live(es)[i].value);
      }
    case _ =>
  }

  /** Storable trees are those that come back unchanged. */
  lemma {:induction false} StorableIffKept(v: Value)
    ensures Storable(v) <==> OwnsNoTag(v) && Kept(v) == v
    decreases v
  {
    match v
    case Arr(items) =>
      forall i | 0 <= i < |items| { StorableIffKept(items[i]); }
      ItemsEqual(Kept(v).items, items);
    case Obj(es) =>
      forall i | 0 <= i < |es| { StorableIffKept(es[i].value); }
      KeptObjectIff(es);
    case _ =>
  }

  lemma KeptObjectIff(es: seq<Entry>)
    requires forall i | 0 <= i < |es| ::
      Storable(es[i].value) <==> OwnsNoTag(es[i].value) && Kept(es[i].value) == es[i].value
    ensures Storable(Obj(es)) <==> OwnsNoTag(Obj(es)) && Kept(Obj(es)) == Obj(es)
  {
    hide Kept, KeptMembers, Live;
    KeptIsObject(es);
    KeptMembersAre(es);
    AllLive(es);
    GapsAreNotStorable(es);
    if |Live(es)| == |es| {
      ItemsEqual(KeptMembers(es), es);
      LiveMeansNoGap(es);
    } else if Storable(Obj(es)) {
      LiveOfLive(es);
    }
  }

  lemma GapsAreNotStorable(es: seq<Entry>)
    ensures Storable(Obj(es)) ==> forall i | 0 <= i < |es| :: !es[i].value.Undefined?
  {
    if Storable(Obj(es)) {
      assert forall i | 0 <= i < |es| :: Storable(es[i].value);
    }
  }

  lemma LiveMeansNoGap(es: seq<Entry>)
    requires Live(es) == es
    ensures forall i | 0 <= i < |es| :: !es[i].value.Undefined?
  {
    assert forall i | 0 <= i < |es| :: es[i] in Live(es);
  }

  /** An error anywhere in a tree is an error of the tree. */
  lemma ErrorsSurface(items: seq<Value>, es: seq<Entry>, i: nat)
    ensures i < |items| && Revive(items[i]).Err? ==> Revive(Arr(items)).Err?
    ensures i < |es| && Revive(es[i].value).Err? ==> Revive(Obj(es)).Err?
  {
    if i < |items| { assert ReviveItems(items)[i] == Revive(items[i]); }
    if i < |es| { assert ReviveMembers(es)[i] == Rekey(es[i].key, Revive(es[i].value)); }
  }

  /** What a member of the tag, once read, denotes. */
  ghost predicate Denotes(v: Value, n: int) {
    match v
    case BigInt(m) => n == m
    case Bool(flag) => n == if flag then 1 else 0
    case Num(x) => x.fraction == [] && n == (if x.negative then -1 else 1) * x.whole
    case Str(s) =>
      (exists digits :: IsDigits(digits) &&
         ((s == digits && n == ReadNat(digits)) || (s == Ascii("-") + digits && n == -1 * ReadNat(digits))))
    case _ => false
  }

  predicate IsDigits(t: Text) { t != [] && AllDigits(t) }

  lemma ToBigIntIff(v: Value, n: int)
    ensures ToBigInt(v) == Ok(BigInt(n)) <==> Denotes(v, n)
    ensures ToBigInt(v).Err? ==> ToBigInt(v).error == NotABigInt
  {
    hide ReadNat;
    if v.Str? {
      var s := v.text;
      assert Ascii("-") == [MINUS];
      if IsDigits(s) {
        assert s[0] != MINUS;
      } else if |s| > 1 && s[0] == MINUS && AllDigits(s[1..]) {
        Uncons(s);
        assert IsDigits(s[1..]) && s == Ascii("-") + s[1..];
      }
      forall digits | IsDigits(digits) && s == Ascii("-") + digits
        ensures s[0] == MINUS && s[1..] == digits
      {
        Head(MINUS, digits);
      }
    }
  }

  /** An object that owns the tag comes back as the bigint its tag denotes, or is an error. */
  lemma TagDecides(es: seq<Entry>, tagged: Value)
    requires forall i | 0 <= i < |Live(es)| :: Revive(Encode(Live(es)[i].value)).Ok?
    requires DistinctKeys(es) && Get(es, BIGINT_TAG).Some?
    requires Revive(Encode(Get(es, BIGINT_TAG).value)) == Ok(tagged)
    requires !tagged.Undefined?
    ensures Revive(Encode(Obj(es))) == ToBigInt(tagged)
  {
    hide Live, Encode, Revive;
    var results := ReviveMembers(EncodeMembers(es));
    var revived := AllOk(results).value;
    LiveDistinct(es);
    var i :| 0 <= i < |Live(es)| && Live(es)[i] == Entry(BIGINT_TAG, Get(es, BIGINT_TAG).value);
    assert revived[i] == Entry(BIGINT_TAG, tagged);
    forall k, l | 0 <= k < l < |revived|
      ensures revived[k].key != revived[l].key
    {
      assert revived[k].key == Live(es)[k].key && revived[l].key == Live(es)[l].key;
    }
    GetMember(revived, revived[i]);
    ReviveIs(es);
  }

  lemma ReviveIs(es: seq<Entry>)
    ensures Revive(Encode(Obj(es))) ==
      (match AllOk(ReviveMembers(EncodeMembers(es)))
       case Ok(revived) => ReviveObject(revived)
       case Err(e) => Err(e))
  {}

  /** No number already below zero under a countdown key. */
  predicate CountdownsNonNegative(v: Value) {
    match v
    case Arr(items) => forall i | 0 <= i < |items| :: CountdownsNonNegative(items[i])
    case Obj(es) =>
      forall i | 0 <= i < |es| ::
        && CountdownsNonNegative(es[i].value)
        && (es[i].key == SECONDS_LEFT ==>
              !(es[i].value.Num? && es[i].value.number.negative) && es[i].value != NonFinite(NegativeInfinity))
    case _ => true
  }

  /** What a reload hands the page for data stored as `v`, `elapsed` seconds after it was read. */
  function Reload(v: Value, elapsed: nat): Result<Value, LoadError>
    requires Proper(v)
  {
    match Load(SerializeClient(v))
    case Ok(w) => Ok(Age(w, elapsed))
    case Err(e) => Err(e)
  }

  lemma LoadIsRevive(v: Value)
    requires Proper(v)
    ensures Load(SerializeClient(v)) == Revive(Encode(v))
  {
    EncodeIsJson(v);
    ParsePrinted(Encode(v));
  }

  lemma {:induction false} AgeZero(v: Value)
    requires CountdownsNonNegative(v)
    ensures Age(v, 0) == v
    decreases v
  {
    match v
    case Arr(items) =>
      forall i | 0 <= i < |items| { AgeZero(items[i]); }
      assert AgeItems(items, 0) == items;
    case Obj(es) =>
      forall i | 0 <= i < |es| { AgeZero(es[i].value); }
      assert AgeMembers(es, 0) == es;
    case _ =>
  }

  /** A reload that changed nothing had nothing to lose. */
  lemma {:induction false} UnchangedMeansStorable(v: Value)
    requires Revive(Encode(v)).Ok? && Age(Revive(Encode(v)).value, 0) == v
    ensures Storable(v) && CountdownsNonNegative(v)
    decreases v
  {
    match v
    case Undefined =>
    case NonFinite(_) =>
    case Arr(items) =>
      var revived := AllOk(ReviveItems(EncodeItems(items))).value;
      assert AgeItems(revived, 0) == items;
      forall i | 0 <= i < |items|
        ensures Storable(items[i]) && CountdownsNonNegative(items[i])
      {
        assert revived[i] == Revive(Encode(items[i])).value;
        assert AgeItems(revived, 0)[i] == items[i];
        UnchangedMeansStorable(items[i]);
      }
    case Obj(es) => UnchangedObject(v);
    case _ =>
  }

  lemma {:induction false} UnchangedObject(v: Value)
    requires v.Obj? && Revive(Encode(v)).Ok? && Age(Revive(Encode(v)).value, 0) == v
    ensures Storable(v) && CountdownsNonNegative(v)
    decreases v, 0
  {
    var es, live := v.entries, Live(v.entries);
    var revived := AllOk(ReviveMembers(EncodeMembers(es))).value;
    assert Revive(Encode(v)) == ReviveObject(revived);
    assert Get(revived, BIGINT_TAG) == None;
    assert AgeMembers(revived, 0) == es;
    AllLive(es);
    forall i | 0 <= i < |es|
      ensures es[i].key != BIGINT_TAG && Storable(es[i].value) && CountdownsNonNegative(es[i].value)
      ensures es[i].key == SECONDS_LEFT ==>
        !(es[i].value.Num? && es[i].value.number.negative) && es[i].value != NonFinite(NegativeInfinity)
    {
      assert revived[i] == Entry(es[i].key, Revive(Encode(es[i].value)).value);
      assert AgeMembers(revived, 0)[i] == es[i];
      RevivedKind(es[i].value);
      TagAbsent(revived, i);
      if !(es[i].key == SECONDS_LEFT && revived[i].value.Num?) {
        UnchangedMeansStorable(es[i].value);
      }
    }
  }

  lemma TagAbsent(es: seq<Entry>, i: nat)
    requires i < |es| && Get(es, BIGINT_TAG) == None && !es[i].value.Undefined?
    ensures es[i].key != BIGINT_TAG
  {
    assert es[i] in es;
  }

  /** Reviving never yields a gap, and yields a number only for a number. */
  lemma RevivedKind(v: Value)
    requires Revive(Encode(v)).Ok?
    ensures var w := Revive(Encode(v)).value;
      !w.Undefined? && !w.NonFinite? && (w.Num? <==> v.Num?)
  {
    hide ReadNat, PrintNat;
    if v.BigInt? { TaggedRevives(v.n); }
  }

  lemma {:induction false} AllLive(es: seq<Entry>)
    ensures |Live(es)| <= |es|
    ensures |Live(es)| == |es| ==> Live(es) == es
  {
    if es != [] {
      AllLive(es[1..]);
      Uncons(es);
    }
  }

  /**
   * A reload with no time elapsed returns exactly what was stored, if and only if the tree has no
   * gap JSON cannot write, no object owning the bigint tag, and no negative countdown.
   */
  lemma ReloadUnchangedIff(v: Value)
    requires Proper(v)
    ensures Reload(v, 0) == Ok(v) <==> Storable(v) && CountdownsNonNegative(v)
  {
    LoadIsRevive(v);
    if Storable(v) && CountdownsNonNegative(v) {
      StorableRevives(v);
      AgeZero(v);
    } else if Reload(v, 0) == Ok(v) {
      UnchangedMeansStorable(v);
    }
  }

  // ----- Laws of ageing -----

  function Fraction(t: Text): real
    requires AllDigits(t)
  {
    ReadNat(t) as real / Pow10(|t|) as real
  }

  /** The number itself. */
  function Magnitude(n: Number): real
    requires AllDigits(n.fraction)
  {
    var size := n.whole as real + Fraction(n.fraction);
    if n.negative then -size else size
  }

  lemma RealQuotient(a: real, b: real)
    requires 0.0 <= a < b
    ensures 0.0 <= a / b < 1.0 && (a > 0.0 ==> a / b > 0.0)
  {}

  lemma FractionBelowOne(t: Text)
    requires AllDigits(t)
    ensures 0.0 <= Fraction(t) < 1.0
    ensures t == [] ==> Fraction(t) == 0.0
    ensures t != [] && t[|t| - 1] != '0' as int ==> Fraction(t) > 0.0
  {
    ReadBound(t);
    RealQuotient(ReadNat(t) as real, Pow10(|t|) as real);
  }

  /** The whole seconds since the query last read the chain; a clock behind that counts as none. */
  lemma ElapsedMeans(now: int, dataUpdatedAt: Number)
    requires NormalNumber(dataUpdatedAt)
    ensures var ms := now as real - Magnitude(dataUpdatedAt);
      var elapsed := Elapsed(now, dataUpdatedAt);
      if ms < 0.0 then elapsed == 0
      else elapsed as real * 1000.0 <= ms < (elapsed + 1) as real * 1000.0
  {
    hide Fraction;
    FractionBelowOne(dataUpdatedAt.fraction);
  }

  /** Ageing a number takes the elapsed seconds off, stopping at zero. */
  lemma AgeNumberSubtracts(n: Number, elapsed: nat)
    requires NormalNumber(n)
    ensures NormalNumber(AgeNumber(n, elapsed))
    ensures Magnitude(AgeNumber(n, elapsed)) ==
      var left := Magnitude(n) - elapsed as real; if left < 0.0 then 0.0 else left
  {
    hide Fraction;
    FractionBelowOne(n.fraction);
    FractionBelowOne([]);
  }

  /** `w` is `v` with every countdown moved on by `elapsed`, and nothing else changed. */
  ghost predicate MovedOn(v: Value, w: Value, elapsed: nat)
    decreases v
  {
    match v
    case Arr(items) =>
      w.Arr? && |w.items| == |items| && forall i | 0 <= i < |items| :: MovedOn(items[i], w.items[i], elapsed)
    case Obj(es) =>
      && w.Obj? && |w.entries| == |es|
      && forall i | 0 <= i < |es| ::
           && w.entries[i].key == es[i].key
           && if es[i].key == Ascii("secondsLeft") && (es[i].value.Num? || es[i].value.NonFinite?)
              then CountedDown(es[i].value, w.entries[i].value, elapsed)
              else MovedOn(es[i].value, w.entries[i].value, elapsed)
    case _ => w == v
  }

  /** A countdown less the elapsed seconds, but not below zero; an infinite or unknown one stays. */
  ghost predicate CountedDown(v: Value, w: Value, elapsed: nat) {
    if v.Num? then
      && w.Num? && NormalNumber(v.number) && NormalNumber(w.number)
      && var left := Magnitude(v.number) - elapsed as real;
      Magnitude(w.number) == if left < 0.0 then 0.0 else left
    else if v == NonFinite(NegativeInfinity) then w == Num(Number(false, 0, []))
    else w == v
  }

  lemma {:induction false} AgeMovesOn(v: Value, elapsed: nat)
    requires Proper(v)
    ensures MovedOn(v, Age(v, elapsed), elapsed)
    decreases v
  {
    hide Magnitude, AgeNumber;
    match v
    case Arr(items) => forall i | 0 <= i < |items| { AgeMovesOn(items[i], elapsed); }
    case Obj(es) =>
      forall i | 0 <= i < |es|
        ensures es[i].value.Num? ==> CountedDown(es[i].value, Num(AgeNumber(es[i].value.number, elapsed)), elapsed)
        ensures MovedOn(es[i].value, Age(es[i].value, elapsed), elapsed)
      {
        AgeMovesOn(es[i].value, elapsed);
        if es[i].value.Num? { AgeNumberSubtracts(es[i].value.number, elapsed); }
      }
    case _ =>
  }

  /** No number under a countdown key. */
  predicate NoCountdown(v: Value) {
    match v
    case Arr(items) => forall i | 0 <= i < |items| :: NoCountdown(items[i])
    case Obj(es) =>
      forall i | 0 <= i < |es| ::
        NoCountdown(es[i].value) && !(es[i].key == SECONDS_LEFT && (es[i].value.Num? || es[i].value.NonFinite?))
    case _ => true
  }

  /** Nothing but countdowns ever changes. */
  lemma {:induction false} AgeLeavesTheRest(v: Value, elapsed: nat)
    requires NoCountdown(v)
    ensures Age(v, elapsed) == v
    decreases v
  {
    match v
    case Arr(items) =>
      forall i | 0 <= i < |items| { AgeLeavesTheRest(items[i], elapsed); }
      assert AgeItems(items, elapsed) == items;
    case Obj(es) =>
      forall i | 0 <= i < |es| { AgeLeavesTheRest(es[i].value, elapsed); }
      assert AgeMembers(es, elapsed) == es;
    case _ =>
  }

  lemma AgeNumberComposes(n: Number, a: nat, b: nat)
    ensures AgeNumber(AgeNumber(n, a), b) == AgeNumber(n, a + b)
  {}

  /** Moving on by `a` seconds and then `b` is moving on by `a + b`. */
  lemma {:induction false} AgeComposes(v: Value, a: nat, b: nat)
    ensures Age(Age(v, a), b) == Age(v, a + b)
    decreases v
  {
    match v
    case Arr(items) =>
      forall i | 0 <= i < |items| { AgeComposes(items[i], a, b); }
      assert AgeItems(AgeItems(items, a), b) == AgeItems(items, a + b);
    case Obj(es) =>
      forall i | 0 <= i < |es|
        ensures AgeMembers(AgeMembers(es, a), b)[i] == AgeMembers(es, a + b)[i]
      {
        AgeComposes(es[i].value, a, b);
        if es[i].value.Num? { AgeNumberComposes(es[i].value.number, a, b); }
      }
      assert AgeMembers(AgeMembers(es, a), b) == AgeMembers(es, a + b);
    case _ =>
  }

  lemma AgeKeepsGaps(key: Text, v: Value, elapsed: nat)
    ensures AgeChild(key, v, elapsed).Undefined? <==> v.Undefined?
  {}

  lemma AgeKeepsTagged(n: int, elapsed: nat)
    ensures Age(Tagged(n), elapsed) == Tagged(n)
  {
    var es := Tagged(n).entries;
    assert AgeChild(BIGINT_TAG, es[0].value, elapsed) == es[0].value;
    assert AgeMembers(es, elapsed) == es;
  }

  lemma AgeMembersStep(e: Entry, es: seq<Entry>, elapsed: nat)
    ensures AgeMembers([e] + es, elapsed) == [Entry(e.key, AgeChild(e.key, e.value, elapsed))] + AgeMembers(es, elapsed)
  {
    hide AgeChild;
    Head(e, es);
  }

  lemma {:induction false} AgeKeepsLive(es: seq<Entry>, elapsed: nat)
    ensures Live(AgeMembers(es, elapsed)) == AgeMembers(Live(es), elapsed)
  {
    if es != [] {
      hide AgeMembers, AgeChild, Live;
      var e, tail := es[0], es[1..];
      Uncons(es);
      AgeKeepsLive(tail, elapsed);
      AgeMembersStep(e, tail, elapsed);
      LiveStep(e, tail);
      LiveStep(Entry(e.key, AgeChild(e.key, e.value, elapsed)), AgeMembers(tail, elapsed));
      AgeKeepsGaps(e.key, e.value, elapsed);
      AgeMembersStep(e, Live(tail), elapsed);
    }
  }

  /** No countdown of minus infinity, the one number that ageing turns into a storable one. */
  predicate NoEndlessCountdown(v: Value) {
    match v
    case Arr(items) => forall i | 0 <= i < |items| :: NoEndlessCountdown(items[i])
    case Obj(es) =>
      forall i | 0 <= i < |es| ::
        NoEndlessCountdown(es[i].value) &&
        !(es[i].key == SECONDS_LEFT && es[i].value == NonFinite(NegativeInfinity))
    case _ => true
  }

  /** The entry ages the same before writing as after reading. */
  ghost predicate MemberCommutes(e: Entry, elapsed: nat) {
    AgeChild(e.key, Encode(e.value), elapsed) == Encode(AgeChild(e.key, e.value, elapsed))
  }

  predicate NoEndlessMember(e: Entry) {
    NoEndlessCountdown(e.value) && !(e.key == SECONDS_LEFT && e.value == NonFinite(NegativeInfinity))
  }

  lemma MemberCommutesIff(e: Entry, elapsed: nat)
    requires !e.value.Undefined?
    requires Age(Encode(e.value), elapsed) == Encode(Age(e.value, elapsed)) <==> NoEndlessCountdown(e.value)
    ensures MemberCommutes(e, elapsed) <==> NoEndlessMember(e)
  {}

  lemma EndlessByMember(es: seq<Entry>)
    ensures NoEndlessCountdown(Obj(es)) <==> forall e | e in es :: NoEndlessMember(e)
  {
    assert NoEndlessCountdown(Obj(es)) <==> forall i | 0 <= i < |es| :: NoEndlessMember(es[i]);
  }

  lemma AbsentIsNoCountdown(e: Entry)
    ensures e.value.Undefined? ==> NoEndlessMember(e)
  {}

  /** Only live entries matter. */
  lemma LiveDecides(es: seq<Entry>)
    ensures NoEndlessCountdown(Obj(es)) <==> forall e | e in Live(es) :: NoEndlessMember(e)
  {
    hide NoEndlessMember, NoEndlessCountdown, Live;
    EndlessByMember(es);
    forall e | e in es
      ensures e in Live(es) || NoEndlessMember(e)
    {
      AbsentIsNoCountdown(e);
    }
  }

  /**
   * Ageing before writing and ageing after reading agree, and never touch a tagged bigint, unless a
   * countdown is minus infinity: ageing makes that a zero, writing makes it null.
   */
  lemma {:induction false} AgeCommutesWithEncodeIff(v: Value, elapsed: nat)
    ensures Age(Encode(v), elapsed) == Encode(Age(v, elapsed)) <==> NoEndlessCountdown(v)
    decreases v
  {
    match v
    case BigInt(n) => AgeKeepsTagged(n, elapsed);
    case Arr(items) =>
      forall i | 0 <= i < |items| { AgeCommutesWithEncodeIff(items[i], elapsed); }
      ItemsEqual(AgeItems(EncodeItems(items), elapsed), EncodeItems(AgeItems(items, elapsed)));
    case Obj(es) =>
      forall e | e in Live(es)
        ensures MemberCommutes(e, elapsed) <==> NoEndlessMember(e)
      {
        assert e in es;
        AgeCommutesWithEncodeIff(e.value, elapsed);
        MemberCommutesIff(e, elapsed);
      }
      ObjectCommutesIff(es, elapsed);
      LiveDecides(es);
    case _ =>
  }

  lemma ObjectCommutesIff(es: seq<Entry>, elapsed: nat)
    ensures Age(Encode(Obj(es)), elapsed) == Encode(Age(Obj(es), elapsed))
       <==> forall e | e in Live(es) :: MemberCommutes(e, elapsed)
  {
    BothWays(es, elapsed);
    hide Age, Encode, AgeChild, MemberCommutes, Live;
    var live, before, after := Live(es), EncodeMembers(AgeMembers(es, elapsed)), AgeMembers(EncodeMembers(es), elapsed);
    AgeKeepsLive(es, elapsed);
    ItemsEqual(after, before);
    forall i | 0 <= i < |live|
      ensures after[i] == before[i] <==> MemberCommutes(live[i], elapsed)
    {
      MemberAt(live[i], after[i], before[i], elapsed);
    }
    assert (forall e | e in live :: MemberCommutes(e, elapsed)) <==>
      forall i | 0 <= i < |live| :: MemberCommutes(live[i], elapsed);
  }

  lemma BothWays(es: seq<Entry>, elapsed: nat)
    ensures Age(Encode(Obj(es)), elapsed) == Obj(AgeMembers(EncodeMembers(es), elapsed))
    ensures Encode(Age(Obj(es), elapsed)) == Obj(EncodeMembers(AgeMembers(es, elapsed)))
  {}

  lemma MemberAt(e: Entry, after: Entry, before: Entry, elapsed: nat)
    requires after == Entry(e.key, AgeChild(e.key, Encode(e.value), elapsed))
    requires before == Entry(e.key, Encode(AgeChild(e.key, e.value, elapsed)))
    ensures after == before <==> MemberCommutes(e, elapsed)
  {}

  lemma {:induction false} AgeKeepsStorable(v: Value, elapsed: nat)
    requires Proper(v) && Storable(v)
    ensures Proper(Age(v, elapsed)) && Storable(Age(v, elapsed))
    decreases v
  {
    match v
    case Arr(items) => forall i | 0 <= i < |items| { AgeKeepsStorable(items[i], elapsed); }
    case Obj(es) => forall i | 0 <= i < |es| { AgeKeepsStorable(es[i].value, elapsed); }
    case _ =>
  }

  // ----- Ageing further -----

  /** Neither number is negative, and `a` is at most `b`. */
  predicate AtMost(a: Number, b: Number) {
    NormalNumber(a) && NormalNumber(b) && 0.0 <= Magnitude(a) <= Magnitude(b)
  }

  /** `x` is `y` with countdowns that are non-negative and no later. */
  ghost predicate NoLater(x: Value, y: Value)
    decreases x
  {
    match (x, y)
    case (Arr(a), Arr(b)) => |a| == |b| && forall i | 0 <= i < |a| :: NoLater(a[i], b[i])
    case (Obj(a), Obj(b)) =>
      |a| == |b| && forall i | 0 <= i < |a| ::
        && a[i].key == b[i].key
        && if a[i].key == SECONDS_LEFT && a[i].value.Num? && b[i].value.Num?
           then AtMost(a[i].value.number, b[i].value.number)
           else NoLater(a[i].value, b[i].value)
    case (Arr(_), _) => false
    case (Obj(_), _) => false
    case _ => x == y
  }

  lemma AgeNumberMonotone(n: Number, a: nat, b: nat)
    requires NormalNumber(n) && a <= b
    ensures AtMost(AgeNumber(n, b), AgeNumber(n, a))
  {
    hide Magnitude, AgeNumber, NormalNumber;
    AgeNumberSubtracts(n, a);
    AgeNumberSubtracts(n, b);
  }

  lemma {:induction false} AgeMonotone(v: Value, a: nat, b: nat)
    requires Proper(v) && Storable(v) && a <= b
    ensures NoLater(Age(v, b), Age(v, a))
    decreases v
  {
    match v
    case Arr(items) => forall i | 0 <= i < |items| { AgeMonotone(items[i], a, b); }
    case Obj(es) =>
      forall i | 0 <= i < |es|
        ensures NoLater(Age(es[i].value, b), Age(es[i].value, a))
        ensures es[i].value.Num? ==> AtMost(AgeNumber(es[i].value.number, b), AgeNumber(es[i].value.number, a))
      {
        AgeMonotone(es[i].value, a, b);
        if es[i].value.Num? { AgeNumberMonotone(es[i].value.number, a, b); }
      }
    case _ =>
  }

  /** Every countdown has reached zero after `elapsed` seconds. */
  predicate Over(v: Value, elapsed: nat) {
    match v
    case Arr(items) => forall i | 0 <= i < |items| :: Over(items[i], elapsed)
    case Obj(es) =>
      forall i | 0 <= i < |es| ::
        && Over(es[i].value, elapsed)
        && (es[i].key == SECONDS_LEFT && es[i].value.Num? ==> AgeNumber(es[i].value.number, elapsed) == ZERO)
    case _ => true
  }

  lemma {:induction false} AgeEqualIffOver(v: Value, a: nat, b: nat)
    requires Storable(v) && a < b
    ensures Age(v, a) == Age(v, b) <==> Over(v, a)
    decreases v
  {
    match v
    case Arr(items) =>
      forall i | 0 <= i < |items| { AgeEqualIffOver(items[i], a, b); }
      ItemsEqual(AgeItems(items, a), AgeItems(items, b));
    case Obj(es) =>
      forall i | 0 <= i < |es|
        ensures AgeMembers(es, a)[i] == AgeMembers(es, b)[i] <==>
          Over(es[i].value, a) &&
          (es[i].key == SECONDS_LEFT && es[i].value.Num? ==> AgeNumber(es[i].value.number, a) == ZERO)
      {
        AgeEqualIffOver(es[i].value, a, b);
      }
      ItemsEqual(AgeMembers(es, a), AgeMembers(es, b));
    case _ =>
  }

  lemma ItemsEqual<T>(a: seq<T>, b: seq<T>)
    requires |a| == |b|
    ensures a == b <==> forall i | 0 <= i < |a| :: a[i] == b[i]
  {}

  /** Ageing leaves a tree alone exactly if no countdown is negative, and none runs or no time passes. */
  lemma AgeChangesNothingIff(v: Value, elapsed: nat)
    requires Storable(v)
    ensures Age(v, elapsed) == v <==> CountdownsNonNegative(v) && (elapsed == 0 || Over(v, 0))
  {
    hide Age, Over, Storable, CountdownsNonNegative;
    if elapsed > 0 { AgeEqualIffOver(v, 0, elapsed); }
    AgeComposes(v, elapsed, 0);
    StorableRevives(v);
    if Age(v, 0) == v {
      UnchangedMeansStorable(v);
    }
    if CountdownsNonNegative(v) {
      AgeZero(v);
    }
  }

  /**
   * Moved on by `earlier` seconds too many: no countdown is negative or later than the true remaining
   * time, and the data is the truth if and only if `earlier` is nothing or every countdown has ended.
   */
  lemma AgedTooFar(v: Value, earlier: nat, last: nat)
    requires Proper(v) && Storable(v)
    ensures NoLater(Age(v, earlier + last), Age(v, last))
    ensures Age(v, earlier + last) == Age(v, last) <==> earlier == 0 || Over(v, last)
  {
    hide Age, NoLater, Over;
    AgeMonotone(v, last, earlier + last);
    if earlier > 0 { AgeEqualIffOver(v, last, earlier + last); }
  }
}
