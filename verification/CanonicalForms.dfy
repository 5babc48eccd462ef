/** The client's canonical text against RFC 8785 and against the printer the Edge Functions use. */
module CanonicalForms {
  import opened Texts
  import opened Json
  import opened JsonText
  import opened Canonical
  import opened PropertyOrder

  // ----- RFC 8785, from its own sections -----

  /** Text in which every surrogate is half of a pair. */
  predicate WellPaired(s: Text)
    decreases |s|
  {
    if s == [] then true
    else if |s| >= 2 && IsHighSurrogate(s[0]) && IsLowSurrogate(s[1]) then WellPaired(s[2..])
    else !IsHighSurrogate(s[0]) && !IsLowSurrogate(s[0]) && WellPaired(s[1..])
  }

  predicate High(u: CodeUnit) { 0xD800 <= u <= 0xDBFF }

  predicate Low(u: CodeUnit) { 0xDC00 <= u <= 0xDFFF }

  /** Every high surrogate is followed by a low one, and every low one follows a high one. */
  predicate Paired(s: Text) {
    && (forall i | 0 <= i < |s| && High(s[i]) :: i + 1 < |s| && Low(s[i + 1]))
    && (forall i | 0 <= i < |s| && Low(s[i]) :: i > 0 && High(s[i - 1]))
  }

  lemma {:induction false} WellPairedIff(s: Text)
    ensures WellPaired(s) <==> Paired(s)
    decreases |s|
  {
    if s != [] {
      var k := if |s| >= 2 && High(s[0]) && Low(s[1]) then 2 else 1;
      WellPairedIff(s[k..]);
      PairedRest(s, k);
    }
  }

  lemma PairedRest(s: Text, k: nat)
    requires 1 <= k <= 2 && k <= |s| && (k == 2 ==> High(s[0]) && Low(s[1]))
    requires k == 1 && |s| >= 2 && High(s[0]) ==> !Low(s[1])
    ensures Paired(s) <==> Paired(s[k..]) && (k == 1 ==> !High(s[0]) && !Low(s[0]))
  {
    var rest := s[k..];
    assert forall i | 0 <= i < |rest| :: rest[i] == s[i + k];
    if Paired(s) {
      forall i | 0 <= i < |rest| && Low(rest[i])
        ensures i > 0 && High(rest[i - 1])
      {
        assert High(s[i + k - 1]);
      }
      forall i | 0 <= i < |rest| && High(rest[i])
        ensures i + 1 < |rest| && Low(rest[i + 1])
      {
        assert Low(s[i + k + 1]);
      }
    }
    if Paired(rest) && (k == 1 ==> !High(s[0]) && !Low(s[0])) {
      forall i | 0 <= i < |s| && Low(s[i])
        ensures i > 0 && High(s[i - 1])
      {
        if i >= k { assert rest[i - k] == s[i]; }
      }
      forall i | 0 <= i < |s| && High(s[i])
        ensures i + 1 < |s| && Low(s[i + 1])
      {
        if i >= k { assert rest[i - k] == s[i]; }
      }
    }
  }

  /** A string, section 3.2.2.2: a lone surrogate must stop the serialization with an error. */
  function RfcString(s: Text): Option<Text> {
    if WellPaired(s) then Some(StringText(s)) else None
  }

  /** The position of the property whose name comes first, section 3.2.3. */
  function First(es: seq<Entry>): (k: nat)
    requires es != []
    ensures k < |es|
  {
    if |es| == 1 then 0
    else
      var k := First(es[1..]) + 1;
      if CodeUnitOrder(es[0].key, es[k].key) then 0 else k
  }

  function Without(es: seq<Entry>, k: nat): (r: seq<Entry>)
    requires k < |es|
    ensures |r| == |es| - 1
    ensures forall e | e in r :: e in es
  {
    es[..k] + es[k + 1..]
  }

  /** The properties in the order of their names. */
  function InNameOrder(es: seq<Entry>): (r: seq<Entry>)
    ensures |r| == |es| && forall e | e in r :: e in es
    decreases |es|
  {
    if es == [] then [] else [es[First(es)]] + InNameOrder(Without(es, First(es)))
  }

  /** The JSON data a value stands for has no property whose value is `undefined`. */
  function RfcMembers(es: seq<Entry>): (r: seq<Entry>)
    ensures forall i | 0 <= i < |r| :: r[i] in es
  {
    InNameOrder(Live(es))
  }

  /** The RFC 8785 text of a value, or nothing when a compliant implementation reports an error. */
  ghost function Rfc8785(v: Value): Option<Text>
    decreases v
  {
    match v
    case Null => Some(Ascii("null"))
    case Bool(flag) => Some(Ascii(if flag then "true" else "false"))
    case Num(n) => Some(NumberText(n))
    case Str(s) => RfcString(s)
    case Arr(items) =>
      (match AllSome(RfcItems(items))
       case Some(texts) => Some(ListText("[", texts, "]"))
       case None => None)
    case Obj(es) =>
      (match AllSome(RfcProperties(es))
       case Some(texts) => Some(ListText("{", texts, "}"))
       case None => None)
    case _ => None
  }

  ghost function RfcItems(items: seq<Value>): (r: seq<Option<Text>>)
    ensures |r| == |items| && forall i | 0 <= i < |items| :: r[i] == Rfc8785(items[i])
    decreases items
  {
    seq(|items|, i requires 0 <= i < |items| => Rfc8785(items[i]))
  }

  ghost function RfcProperties(es: seq<Entry>): (r: seq<Option<Text>>)
    ensures |r| == |RfcMembers(es)|
    ensures forall i | 0 <= i < |r| ::
      r[i] == RfcProperty(RfcString(RfcMembers(es)[i].key), Rfc8785(RfcMembers(es)[i].value))
    decreases es
  {
    var members := RfcMembers(es);
    seq(|members|, i requires 0 <= i < |members| => RfcProperty(RfcString(members[i].key), Rfc8785(members[i].value)))
  }

  function RfcProperty(name: Option<Text>, value: Option<Text>): Option<Text> {
    match (name, value)
    case (Some(n), Some(t)) => Some(n + (Ascii(":") + t))
    case _ => None
  }

  // ----- The Edge Functions' printer -----

  /** `canonicalize`; nothing when it throws. Its comparator is `<` on strings, the code-unit order. */
  function Canonicalize(v: Value): Option<Text>
    decreases v
  {
    match v
    case Null => Some(Ascii("null"))
    case Undefined => None
    case BigInt(_) => None
    case NonFinite(_) => Some(Ascii("null"))
    case Bool(flag) => Some(if flag then Ascii("true") else Ascii("false"))
    case Num(n) => Some(PrintNumber(n))
    case Str(s) => Some(PrintString(s))
    case Arr(items) =>
      (match AllSome(CanonicalizeItems(items))
       case Some(texts) => Some(ArrayText(texts))
       case None => None)
    case Obj(es) =>
      (match AllSome(CanonicalizeMembers(es))
       case Some(texts) => Some(ObjectText(texts))
       case None => None)
  }

  function CanonicalizeItems(items: seq<Value>): (r: seq<Option<Text>>)
    ensures |r| == |items| && forall i | 0 <= i < |items| :: r[i] == Canonicalize(items[i])
    decreases items
  {
    seq(|items|, i requires 0 <= i < |items| => Canonicalize(items[i]))
  }

  function CanonicalizeMembers(es: seq<Entry>): (r: seq<Option<Text>>)
    ensures |r| == |Members(es, CodeUnitOrder)|
    ensures forall i | 0 <= i < |r| ::
      r[i] == ServerMember(Members(es, CodeUnitOrder)[i].key, Canonicalize(Members(es, CodeUnitOrder)[i].value))
    decreases es
  {
    var members := Members(es, CodeUnitOrder);
    seq(|members|, i requires 0 <= i < |members| => ServerMember(members[i].key, Canonicalize(members[i].value)))
  }

  function ServerMember(key: Text, child: Option<Text>): Option<Text> {
    match child
    case Some(text) => Some(MemberText(key, text))
    case None => None
  }

  // ----- The code-unit order -----

  lemma {:induction false} CodeUnitTotal(a: Text, b: Text)
    ensures CodeUnitOrder(a, b) || CodeUnitOrder(b, a)
    ensures CodeUnitOrder(a, b) && CodeUnitOrder(b, a) ==> a == b
    decreases |a|
  {
    if a != [] && b != [] {
      CodeUnitTotal(a[1..], b[1..]);
      Uncons(a);
      Uncons(b);
    }
  }

  lemma {:induction false} CodeUnitTransitive(a: Text, b: Text, c: Text)
    requires CodeUnitOrder(a, b) && CodeUnitOrder(b, c)
    ensures CodeUnitOrder(a, c)
    decreases |a|
  {
    if a != [] && a[0] == b[0] == c[0] {
      CodeUnitTransitive(a[1..], b[1..], c[1..]);
    }
  }

  /** The code-unit order meets what the printer needs. */
  lemma CodeUnitOrderSeparates()
    ensures TotalPreorder(CodeUnitOrder) && Separating(CodeUnitOrder)
  {
    forall a, b
      ensures CodeUnitOrder(a, b) || CodeUnitOrder(b, a)
      ensures CodeUnitOrder(a, b) && CodeUnitOrder(b, a) ==> a == b
    {
      CodeUnitTotal(a, b);
    }
    forall a, b, c | CodeUnitOrder(a, b) && CodeUnitOrder(b, c)
      ensures CodeUnitOrder(a, c)
    {
      CodeUnitTransitive(a, b, c);
    }
  }

  lemma {:induction false} FirstIsLeast(es: seq<Entry>)
    requires es != []
    ensures forall i | 0 <= i < |es| :: CodeUnitOrder(es[First(es)].key, es[i].key)
  {
    CodeUnitOrderSeparates();
    if |es| > 1 {
      FirstIsLeast(es[1..]);
      var k := First(es[1..]) + 1;
      forall i | 0 <= i < |es|
        ensures CodeUnitOrder(es[First(es)].key, es[i].key)
      {
        if i > 0 {
          assert es[1..][i - 1] == es[i] && es[1..][k - 1] == es[k];
          assert CodeUnitOrder(es[k].key, es[i].key);
        }
      }
    }
  }

  lemma WithoutDistinct(es: seq<Entry>, k: nat)
    requires DistinctKeys(es) && k < |es|
    ensures DistinctKeys(Without(es, k))
    ensures forall e :: e in es <==> e == es[k] || e in Without(es, k)
    ensures forall e | e in Without(es, k) :: e.key != es[k].key
  {
    var r := Without(es, k);
    forall e | e in es && e != es[k]
      ensures e in r
    {
      var i :| 0 <= i < |es| && es[i] == e;
      assert r[if i < k then i else i - 1] == e;
    }
    assert forall i | 0 <= i < |r| :: r[i] == es[if i < k then i else i + 1];
  }

  /** Picking the first name again and again sorts by name. */
  lemma {:induction false} NameOrderSorts(es: seq<Entry>)
    requires DistinctKeys(es)
    ensures SortedKeys(Keys(InNameOrder(es)), CodeUnitOrder)
    ensures forall e :: e in InNameOrder(es) <==> e in es
    decreases |es|
  {
    if es != [] {
      var k := First(es);
      var tail := InNameOrder(Without(es, k));
      FirstIsLeast(es);
      WithoutDistinct(es, k);
      NameOrderSorts(Without(es, k));
      forall i | 0 <= i < |tail|
        ensures CodeUnitOrder(es[k].key, tail[i].key) && tail[i].key != es[k].key
      {
        assert tail[i] in es;
        var j :| 0 <= j < |es| && es[j] == tail[i];
      }
      PrependSorted(es[k], tail);
    }
  }

  lemma PrependSorted(e: Entry, tail: seq<Entry>)
    requires SortedKeys(Keys(tail), CodeUnitOrder)
    requires forall i | 0 <= i < |tail| :: CodeUnitOrder(e.key, tail[i].key) && tail[i].key != e.key
    ensures SortedKeys(Keys([e] + tail), CodeUnitOrder)
  {
    var keys := Keys([e] + tail);
    forall i, j | 0 <= i < j < |keys|
      ensures CodeUnitOrder(keys[i], keys[j]) && keys[i] != keys[j]
    {
      if i > 0 { assert keys[i] == Keys(tail)[i - 1] && keys[j] == Keys(tail)[j - 1]; }
      else { assert keys[j] == tail[j - 1].key; }
    }
  }

  /** Both ways of ordering properties by code unit agree. */
  lemma RfcMembersAre(es: seq<Entry>)
    requires DistinctKeys(es)
    ensures RfcMembers(es) == Members(es, CodeUnitOrder)
  {
    var live, members := Live(es), Members(es, CodeUnitOrder);
    CodeUnitOrderSeparates();
    LiveDistinct(es);
    NameOrderSorts(live);
    SortedMembers(es, CodeUnitOrder);
    forall key
      ensures key in Keys(InNameOrder(live)) <==> key in Keys(members)
    {
      KeyOfEntry(InNameOrder(live), key);
      KeyOfEntry(members, key);
      assert forall e :: e in InNameOrder(live) <==> e in members;
    }
    UniqueSortedKeys(Keys(InNameOrder(live)), Keys(members), CodeUnitOrder);
    SameKeysSameEntries(InNameOrder(live), members, live);
  }

  lemma KeyOfEntry(es: seq<Entry>, key: Text)
    ensures key in Keys(es) <==> exists e :: e in es && e.key == key
  {
    if key in Keys(es) {
      var i :| 0 <= i < |es| && Keys(es)[i] == key;
      assert es[i] in es;
    }
    if e :| e in es && e.key == key {
      var i :| 0 <= i < |es| && es[i] == e;
      assert Keys(es)[i] == key;
    }
  }

  // ----- The code-unit-ordered text -----

  /** The text is the code-unit-ordered one exactly when the orders agree on every object of the value. */
  lemma CodeUnitTextIff(v: Value, le: Collation)
    requires TotalPreorder(le) && Proper(v) && Canonicalisable(v)
    ensures Serialize(v, le) == Serialize(v, CodeUnitOrder) <==> OrdersAgree(v, le, CodeUnitOrder)
    ensures Serialize(v, le).Ok? && Serialize(v, CodeUnitOrder).Ok?
  {
    hide Serialize, Canon, OrdersAgree, CodeUnitOrder, TotalPreorder;
    CodeUnitOrderSeparates();
    CanonAgreesIff(v, le, CodeUnitOrder);
    ReadBack(v, le, []);
    ReadBack(v, CodeUnitOrder, []);
    SerializePrintsCanon(v, le);
    SerializePrintsCanon(v, CodeUnitOrder);
  }

  // ----- RFC 8785 is the code-unit text of well-paired values -----

  /** No string and no name of a printed property holds a lone surrogate. */
  predicate WholeCharacters(v: Value) {
    match v
    case Str(s) => WellPaired(s)
    case Arr(items) => forall i | 0 <= i < |items| :: WholeCharacters(items[i])
    case Obj(es) =>
      forall i | 0 <= i < |es| :: es[i].value.Undefined? || (WellPaired(es[i].key) && WholeCharacters(es[i].value))
    case _ => true
  }

  /** RFC 8785 text exists exactly for canonicalisable values of whole characters, and is the code-unit-ordered text. */
  ghost predicate RfcIsCodeUnitText(v: Value) {
    && (Rfc8785(v).Some? <==> Canonicalisable(v) && WholeCharacters(v))
    && (Rfc8785(v).Some? ==> Serialize(v, CodeUnitOrder) == Ok(Rfc8785(v).value))
  }

  lemma {:induction false} RfcText(v: Value)
    requires Proper(v)
    ensures RfcIsCodeUnitText(v)
    decreases v
  {
    match v
    case Num(n) => NumberTextIs(n);
    case Str(s) => StringTextIs(s);
    case Arr(items) =>
      forall i | 0 <= i < |items| { RfcText(items[i]); }
      RfcArray(items);
    case Obj(es) =>
      forall i | 0 <= i < |es| { RfcText(es[i].value); }
      RfcObject(es);
    case _ =>
  }

  lemma RfcArray(items: seq<Value>)
    requires forall i | 0 <= i < |items| :: RfcIsCodeUnitText(items[i])
    ensures RfcIsCodeUnitText(Arr(items))
  {
    hide ListText, ArrayText;
    var rfc, ours := RfcItems(items), SerializeItems(items, CodeUnitOrder);
    assert forall i | 0 <= i < |items| :: rfc[i].Some? <==> Canonicalisable(items[i]) && WholeCharacters(items[i]);
    if AllSome(rfc).Some? {
      assert forall i | 0 <= i < |items| :: ours[i] == Ok(rfc[i].value);
      assert AllOk(ours).value == AllSome(rfc).value;
      ListsAre(AllSome(rfc).value);
    }
  }

  lemma RfcObject(es: seq<Entry>)
    requires DistinctKeys(es) && forall i | 0 <= i < |es| :: RfcIsCodeUnitText(es[i].value)
    ensures RfcIsCodeUnitText(Obj(es))
  {
    hide InNameOrder, SortByKey, Live, PrintString, StringText, ListText, ObjectText;
    var members := Members(es, CodeUnitOrder);
    var rfc, ours := RfcProperties(es), SerializeMembers(es, CodeUnitOrder);
    RfcMembersAre(es);
    MembersAreLive(es, CodeUnitOrder);
    PrintedDecides(es);
    forall i | 0 <= i < |members|
      ensures rfc[i].Some? <==> PrintableMember(members[i])
      ensures rfc[i].Some? ==> ours[i] == Ok(rfc[i].value)
    {
      assert members[i] in es;
      StringTextIs(members[i].key);
      assert Ascii(":") == [COLON];
    }
    assert (forall e | e in members :: PrintableMember(e)) <==>
      forall i | 0 <= i < |members| :: PrintableMember(members[i]);
    if AllSome(rfc).Some? {
      assert AllOk(ours).value == AllSome(rfc).value;
      ListsAre(AllSome(rfc).value);
    }
  }

  /** A property both printers can print. */
  predicate PrintableMember(e: Entry) {
    WellPaired(e.key) && Canonicalisable(e.value) && WholeCharacters(e.value)
  }

  lemma PrintableObject(es: seq<Entry>)
    ensures Canonicalisable(Obj(es)) && WholeCharacters(Obj(es)) <==>
      forall e | e in es :: e.value.Undefined? || PrintableMember(e)
  {
    assert Canonicalisable(Obj(es)) && WholeCharacters(Obj(es)) <==>
      forall i | 0 <= i < |es| :: es[i].value.Undefined? || PrintableMember(es[i]);
  }

  lemma PrintedDecides(es: seq<Entry>)
    ensures Canonicalisable(Obj(es)) && WholeCharacters(Obj(es)) <==>
      forall e | e in Members(es, CodeUnitOrder) :: PrintableMember(e)
  {
    hide PrintableMember, Canonicalisable, WholeCharacters, SortByKey;
    PrintableObject(es);
    MembersAreLive(es, CodeUnitOrder);
  }

  /**
   * Value by value: the text printed is the RFC 8785 text if and only if the value has one, that is
   * no lone surrogate is in it, and the host's collation orders its objects as code units do.
   */
  lemma MatchesRfc8785Iff(v: Value, le: Collation)
    requires TotalPreorder(le) && Proper(v)
    ensures Serialize(v, le).Ok? && Rfc8785(v) == Some(Serialize(v, le).value)
       <==> Canonicalisable(v) && WholeCharacters(v) && OrdersAgree(v, le, CodeUnitOrder)
  {
    hide Serialize, Rfc8785, Canonicalisable, WholeCharacters, OrdersAgree;
    RfcText(v);
    SerializePrintsCanon(v, le);
    if Canonicalisable(v) { CodeUnitTextIff(v, le); }
  }

  /** A lone surrogate is printed, escaped, where RFC 8785 requires an error. */
  lemma LoneSurrogateIsPrinted(le: Collation)
    ensures var v := Str([0xD800]);
      Serialize(v, le) == Ok(PrintString([0xD800])) && Rfc8785(v) == None
  {
    StringTextIs([0xD800]);
  }

  /** Every value that exists and has an RFC 8785 text is printed as that text. */
  ghost predicate PrintsRfc8785(le: Collation) {
    forall v | Proper(v) && Listed(v) && Rfc8785(v).Some? :: Serialize(v, le) == Ok(Rfc8785(v).value)
  }

  lemma NotRfc8785(v: Value, le: Collation)
    requires Proper(v) && Listed(v) && Rfc8785(v).Some? && Serialize(v, le) != Ok(Rfc8785(v).value)
    ensures !PrintsRfc8785(le)
  {}

  /** The collation compares as code units do, for names of whole characters that an object can list so. */
  ghost predicate ComparesCodeUnits(le: Collation) {
    forall a, b | WellPaired(a) && WellPaired(b) && MayPrecede(a, b) :: le(a, b) == CodeUnitOrder(a, b)
  }

  lemma {:induction false} AgreementIsEnough(v: Value, le: Collation)
    requires WholeCharacters(v) && Listed(v) && ComparesCodeUnits(le)
    ensures OrdersAgree(v, le, CodeUnitOrder)
    decreases v
  {
    match v
    case Arr(items) => forall i | 0 <= i < |items| { AgreementIsEnough(items[i], le); }
    case Obj(es) =>
      forall i | 0 <= i < |es|
        ensures OrdersAgree(es[i].value, le, CodeUnitOrder)
      {
        if !es[i].value.Undefined? { AgreementIsEnough(es[i].value, le); }
      }
      forall i | 0 <= i < |Live(es)|
        ensures WellPaired(Live(es)[i].key)
      {
        assert Live(es)[i] in es;
      }
      LiveListed(es);
    case _ =>
  }

  lemma PairDisagrees(a: Text, b: Text, le: Collation)
    requires WellPaired(a) && WellPaired(b) && le(a, b) != CodeUnitOrder(a, b)
    ensures WholeCharacters(Pair(a, b)) && !OrdersAgree(Pair(a, b), le, CodeUnitOrder)
  {
    var es := Pair(a, b).entries;
    LiveOfLive(es);
    assert es[0].key == a && es[1].key == b;
  }

  lemma MisorderedPair(a: Text, b: Text, le: Collation)
    requires TotalPreorder(le) && WellPaired(a) && WellPaired(b) && a != b && MayPrecede(a, b)
    requires le(a, b) != CodeUnitOrder(a, b)
    ensures !PrintsRfc8785(le)
  {
    hide Serialize, Rfc8785, OrdersAgree, WholeCharacters, Canonicalisable, TotalPreorder;
    var v := Pair(a, b);
    PairProper(a, b);
    PairListed(a, b);
    PairDisagrees(a, b, le);
    RfcText(v);
    MatchesRfc8785Iff(v, le);
    NotRfc8785(v, le);
  }

  /** The printer conforms on all values that exist exactly when its collation compares as code units do. */
  lemma PrintsRfc8785Iff(le: Collation)
    requires TotalPreorder(le)
    ensures PrintsRfc8785(le) <==> ComparesCodeUnits(le)
  {
    hide Serialize, Rfc8785, Canonicalisable, WholeCharacters, OrdersAgree, CodeUnitOrder, WellPaired, MayPrecede;
    if ComparesCodeUnits(le) {
      forall v | Proper(v) && Listed(v) && Rfc8785(v).Some?
        ensures Serialize(v, le) == Ok(Rfc8785(v).value)
      {
        RfcText(v);
        AgreementIsEnough(v, le);
        MatchesRfc8785Iff(v, le);
      }
    } else {
      var a, b :| WellPaired(a) && WellPaired(b) && MayPrecede(a, b) && le(a, b) != CodeUnitOrder(a, b);
      CodeUnitTotal(a, a);
      MisorderedPair(a, b, le);
    }
  }

  // ----- Client and server -----

  /** Canonicalisable values get the code-unit-ordered text from the server. */
  lemma {:induction false} ServerText(v: Value)
    requires Proper(v) && Canonicalisable(v)
    ensures Serialize(v, CodeUnitOrder).Ok?
    ensures Canonicalize(v) == Some(Serialize(v, CodeUnitOrder).value)
    decreases v
  {
    match v
    case Arr(items) =>
      forall i | 0 <= i < |items| { ServerText(items[i]); }
      assert AllSome(CanonicalizeItems(items)).value == AllOk(SerializeItems(items, CodeUnitOrder)).value;
    case Obj(es) =>
      var members := Members(es, CodeUnitOrder);
      forall i | 0 <= i < |members|
        ensures Serialize(members[i].value, CodeUnitOrder).Ok?
        ensures Canonicalize(members[i].value) == Some(Serialize(members[i].value, CodeUnitOrder).value)
      {
        assert members[i] in es;
        ServerText(members[i].value);
      }
      assert AllSome(CanonicalizeMembers(es)).value == AllOk(SerializeMembers(es, CodeUnitOrder)).value;
    case _ =>
  }

  /** What the Edge Functions do not throw on. */
  predicate ServerAccepts(v: Value) {
    match v
    case Undefined => false
    case BigInt(_) => false
    case Arr(items) => forall i | 0 <= i < |items| :: ServerAccepts(items[i])
    case Obj(es) => forall i | 0 <= i < |es| :: es[i].value.Undefined? || ServerAccepts(es[i].value)
    case _ => true
  }

  /** The value with null in place of every number that is not finite. */
  function Nulled(v: Value): Value
    decreases v
  {
    match v
    case NonFinite(_) => Null
    case Arr(items) => Arr(seq(|items|, i requires 0 <= i < |items| => Nulled(items[i])))
    case Obj(es) => Obj(NulledMembers(es))
    case _ => v
  }

  function NulledMembers(es: seq<Entry>): (r: seq<Entry>)
    ensures |r| == |es| && forall i | 0 <= i < |es| :: r[i] == Entry(es[i].key, Nulled(es[i].value))
    decreases es
  {
    seq(|es|, i requires 0 <= i < |es| => Entry(es[i].key, Nulled(es[i].value)))
  }

  lemma {:induction false} InsertNulled(e: Entry, es: seq<Entry>, le: Collation)
    ensures InsertByKey(Entry(e.key, Nulled(e.value)), NulledMembers(es), le) == NulledMembers(InsertByKey(e, es, le))
  {
    if es != [] && !le(e.key, es[0].key) {
      InsertNulled(e, es[1..], le);
      assert NulledMembers(es)[1..] == NulledMembers(es[1..]);
    }
  }

  lemma {:induction false} SortNulled(es: seq<Entry>, le: Collation)
    ensures SortByKey(NulledMembers(es), le) == NulledMembers(SortByKey(es, le))
  {
    if es != [] {
      SortNulled(es[1..], le);
      InsertNulled(es[0], SortByKey(es[1..], le), le);
      assert NulledMembers(es)[1..] == NulledMembers(es[1..]);
    }
  }

  lemma NulledStep(e: Entry, es: seq<Entry>)
    ensures NulledMembers([e] + es) == [Entry(e.key, Nulled(e.value))] + NulledMembers(es)
    ensures Nulled(e.value).Undefined? <==> e.value.Undefined?
  {
    Head(e, es);
  }

  lemma {:induction false} LiveNulled(es: seq<Entry>)
    ensures Live(NulledMembers(es)) == NulledMembers(Live(es))
  {
    if es != [] {
      hide NulledMembers, Live;
      var e, tail := es[0], es[1..];
      Uncons(es);
      LiveNulled(tail);
      NulledStep(e, tail);
      NulledStep(e, Live(tail));
      LiveStep(e, tail);
      LiveStep(Entry(e.key, Nulled(e.value)), NulledMembers(tail));
    }
  }

  /**
   * For every value: the Edge Functions print it unless it has a bigint or a stray gap, and print it as
   * the value with null for every number that is not finite.
   */
  lemma {:induction false} ServerTextIs(v: Value)
    ensures Canonicalize(v).Some? <==> ServerAccepts(v)
    ensures Canonicalize(v) == Canonicalize(Nulled(v))
    ensures Canonicalisable(Nulled(v)) <==> ServerAccepts(v)
    decreases v
  {
    match v
    case Arr(items) =>
      forall i | 0 <= i < |items| { ServerTextIs(items[i]); }
      assert CanonicalizeItems(items) == CanonicalizeItems(Nulled(v).items);
    case Obj(es) =>
      forall i | 0 <= i < |es| { ServerTextIs(es[i].value); }
      ServerObject(es);
      NulledObject(es);
    case _ =>
  }

  lemma ServerObject(es: seq<Entry>)
    requires forall i | 0 <= i < |es| ::
      && (Canonicalize(es[i].value).Some? <==> ServerAccepts(es[i].value))
      && Canonicalize(es[i].value) == Canonicalize(Nulled(es[i].value))
    ensures Canonicalize(Obj(es)).Some? <==> ServerAccepts(Obj(es))
    ensures Canonicalize(Obj(es)) == Canonicalize(Nulled(Obj(es)))
  {
    hide ServerAccepts, Canonicalize, CanonicalizeMembers, SortByKey, Live;
    var members := Members(es, CodeUnitOrder);
    LiveNulled(es);
    SortNulled(Live(es), CodeUnitOrder);
    assert Members(NulledMembers(es), CodeUnitOrder) == NulledMembers(members);
    forall i | 0 <= i < |members|
      ensures Canonicalize(members[i].value) == Canonicalize(Nulled(members[i].value))
      ensures Canonicalize(members[i].value).Some? <==> ServerAccepts(members[i].value)
    {
      assert members[i] in es;
    }
    ServerMembers(es, NulledMembers(es));
    ServerPrintsMembers(es);
    AcceptsMembers(es);
    assert (forall e | e in members :: ServerAccepts(e.value)) <==>
      forall i | 0 <= i < |members| :: ServerAccepts(members[i].value);
  }

  lemma NulledObject(es: seq<Entry>)
    requires forall i | 0 <= i < |es| :: Canonicalisable(Nulled(es[i].value)) <==> ServerAccepts(es[i].value)
    ensures Canonicalisable(Nulled(Obj(es))) <==> ServerAccepts(Obj(es))
  {
    var nulled := NulledMembers(es);
    assert Canonicalisable(Obj(nulled)) <==>
      forall i | 0 <= i < |es| :: nulled[i].value.Undefined? || Canonicalisable(nulled[i].value);
  }

  lemma ServerMembers(es: seq<Entry>, nulled: seq<Entry>)
    requires var a, b := Members(es, CodeUnitOrder), Members(nulled, CodeUnitOrder);
      |a| == |b| && forall i | 0 <= i < |a| ::
        a[i].key == b[i].key && Canonicalize(a[i].value) == Canonicalize(b[i].value)
    ensures Canonicalize(Obj(es)) == Canonicalize(Obj(nulled))
  {
    hide Members;
    assert CanonicalizeMembers(es) == CanonicalizeMembers(nulled);
  }

  lemma ServerPrintsMembers(es: seq<Entry>)
    ensures Canonicalize(Obj(es)).Some? <==>
      forall i | 0 <= i < |Members(es, CodeUnitOrder)| :: Canonicalize(Members(es, CodeUnitOrder)[i].value).Some?
  {
    hide Members;
    assert forall i | 0 <= i < |CanonicalizeMembers(es)| ::
      CanonicalizeMembers(es)[i].Some? <==> Canonicalize(Members(es, CodeUnitOrder)[i].value).Some?;
  }

  lemma AcceptsObject(es: seq<Entry>)
    ensures ServerAccepts(Obj(es)) <==> forall e | e in es :: e.value.Undefined? || ServerAccepts(e.value)
  {
    if ServerAccepts(Obj(es)) {
      forall e | e in es
        ensures e.value.Undefined? || ServerAccepts(e.value)
      {
        var i :| 0 <= i < |es| && es[i] == e;
      }
    }
  }

  lemma AcceptsMembers(es: seq<Entry>)
    ensures ServerAccepts(Obj(es)) <==> forall e | e in Members(es, CodeUnitOrder) :: ServerAccepts(e.value)
  {
    hide ServerAccepts, SortByKey;
    AcceptsObject(es);
    MembersAreLive(es, CodeUnitOrder);
  }

  /** The Edge Functions print the RFC 8785 text of every value that has one. */
  lemma ServerPrintsRfc8785(v: Value)
    requires Proper(v)
    ensures Rfc8785(v).Some? <==> Canonicalisable(v) && WholeCharacters(v)
    ensures Rfc8785(v).Some? ==> Canonicalize(v) == Rfc8785(v)
  {
    hide Serialize, Rfc8785, Canonicalize, Canonicalisable, WholeCharacters;
    RfcText(v);
    if Canonicalisable(v) {
      ServerText(v);
    }
  }

  /**
   * The client and the Edge Functions print one text for a value if and only if the client prints
   * it at all and its collation orders the value's objects as code units do.
   */
  lemma ClientMatchesServerIff(v: Value, le: Collation)
    requires TotalPreorder(le) && Proper(v)
    ensures Serialize(v, le).Ok? && Canonicalize(v) == Some(Serialize(v, le).value)
       <==> Canonicalisable(v) && OrdersAgree(v, le, CodeUnitOrder)
  {
    hide Serialize, Canonicalize, Canonicalisable, OrdersAgree;
    SerializePrintsCanon(v, le);
    if Canonicalisable(v) {
      ServerText(v);
      CodeUnitTextIff(v, le);
    }
  }

  /** A number that is not finite is an error to the client and `null` to the server. */
  lemma NonFiniteDiffers(special: Special, le: Collation)
    ensures Serialize(NonFinite(special), le) == Err(NonFiniteNumber)
    ensures Canonicalize(NonFinite(special)) == Canonicalize(Null) == Some(Ascii("null"))
  {}
}
