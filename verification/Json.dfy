/** JavaScript value trees, their JSON text (RFC 8259), and a reader that inverts the printer. */
module Json {
  import opened Texts
  import opened Decimals

  /** A finite number in plain decimal notation: sign, whole part, fraction digits. */
  datatype Number = Number(negative: bool, whole: nat, fraction: Text)

  datatype Special = NaN | Infinity | NegativeInfinity

  datatype Value =
    | Undefined
    | Null
    | Bool(flag: bool)
    | Num(number: Number)
    | NonFinite(special: Special)
    | BigInt(n: int)
    | Str(text: Text)
    | Arr(items: seq<Value>)
    | Obj(entries: seq<Entry>)

  /** An own property. `Obj` keeps properties in the order `Object.entries` lists them. */
  datatype Entry = Entry(key: Text, value: Value)

  /** One spelling per number: no trailing fraction zeros, no negative zero. */
  predicate NormalNumber(n: Number) {
    && AllDigits(n.fraction)
    && (n.fraction != [] ==> n.fraction[|n.fraction| - 1] != '0' as int)
    && (n.negative ==> n.whole > 0 || n.fraction != [])
  }

  predicate DistinctKeys(es: seq<Entry>) {
    forall i, j | 0 <= i < j < |es| :: es[i].key != es[j].key
  }

  /** What every JavaScript value satisfies: normal numbers, and distinct keys in every object. */
  predicate Proper(v: Value) {
    match v
    case Num(n) => NormalNumber(n)
    case Arr(items) => forall i | 0 <= i < |items| :: Proper(items[i])
    case Obj(es) => DistinctKeys(es) && forall i | 0 <= i < |es| :: Proper(es[i].value)
    case _ => true
  }

  /** Values JSON text can express. */
  predicate IsJson(v: Value) {
    match v
    case Undefined => false
    case NonFinite(_) => false
    case BigInt(_) => false
    case Num(n) => NormalNumber(n)
    case Arr(items) => forall i | 0 <= i < |items| :: IsJson(items[i])
    case Obj(es) => forall i | 0 <= i < |es| :: IsJson(es[i].value)
    case _ => true
  }

  /** The properties whose value is not `undefined`. */
  function Live(es: seq<Entry>): (r: seq<Entry>)
    ensures forall e :: e in r <==> e in es && !e.value.Undefined?
  {
    if es == [] then []
    else if es[0].value.Undefined? then Live(es[1..])
    else [es[0]] + Live(es[1..])
  }

  lemma LiveStep(e: Entry, es: seq<Entry>)
    ensures Live([e] + es) == if e.value.Undefined? then Live(es) else [e] + Live(es)
  {
    Head(e, es);
  }

  lemma {:induction false} LiveOfLive(es: seq<Entry>)
    requires forall i | 0 <= i < |es| :: !es[i].value.Undefined?
    ensures Live(es) == es
  {
    if es != [] {
      LiveOfLive(es[1..]);
      Uncons(es);
    }
  }

  lemma {:induction false} LiveDistinct(es: seq<Entry>)
    requires DistinctKeys(es)
    ensures DistinctKeys(Live(es))
  {
    if es != [] {
      LiveDistinct(es[1..]);
      forall j | 0 <= j < |Live(es[1..])|
        ensures Live(es[1..])[j].key != es[0].key
      {
        assert Live(es[1..])[j] in es[1..];
      }
    }
  }

  /** The value a property lookup finds, if it is there and not `undefined`. */
  function Get(es: seq<Entry>, key: Text): (r: Option<Value>)
    ensures r.Some? ==> Entry(key, r.value) in es && !r.value.Undefined?
    ensures r.None? ==> forall e | e in es && e.key == key :: e.value.Undefined?
  {
    if es == [] then None
    else if es[0].key == key && !es[0].value.Undefined? then Some(es[0].value)
    else Get(es[1..], key)
  }

  lemma GetMember(es: seq<Entry>, e: Entry)
    requires DistinctKeys(es) && e in es && !e.value.Undefined?
    ensures Get(es, e.key) == Some(e.value)
  {
    var i :| 0 <= i < |es| && es[i] == e;
    assert Get(es, e.key).Some?;
    var j :| 0 <= j < |es| && es[j] == Entry(e.key, Get(es, e.key).value);
    assert i == j;
  }

  // ----- Strings: section 7 of RFC 8259, with lone surrogates escaped -----

  predicate IsHighSurrogate(u: CodeUnit) { 0xD800 <= u <= 0xDBFF }

  predicate IsLowSurrogate(u: CodeUnit) { 0xDC00 <= u <= 0xDFFF }

  function HexDigit(d: nat): CodeUnit
    requires d < 16
  {
    if d < 10 then '0' as int + d else 'a' as int + (d - 10)
  }

  function HexValue(u: CodeUnit): Option<nat> {
    if '0' as int <= u <= '9' as int then Some(u - '0' as int)
    else if 'a' as int <= u <= 'f' as int then Some(u - 'a' as int + 10)
    else if 'A' as int <= u <= 'F' as int then Some(u - 'A' as int + 10)
    else None
  }

  function UnicodeEscape(u: CodeUnit): Text {
    [BACKSLASH, 'u' as int,
     HexDigit(u / 16 / 16 / 16), HexDigit(u / 16 / 16 % 16), HexDigit(u / 16 % 16), HexDigit(u % 16)]
  }

  /** The escape sequence for one code unit that is not half of a surrogate pair. */
  function EscapeUnit(u: CodeUnit): Text {
    if u == QUOTE || u == BACKSLASH then [BACKSLASH, u]
    else if u == 8 then [BACKSLASH, 'b' as int]
    else if u == 9 then [BACKSLASH, 't' as int]
    else if u == 10 then [BACKSLASH, 'n' as int]
    else if u == 12 then [BACKSLASH, 'f' as int]
    else if u == 13 then [BACKSLASH, 'r' as int]
    else if u < 0x20 || IsHighSurrogate(u) || IsLowSurrogate(u) then UnicodeEscape(u)
    else [u]
  }

  function Escape(s: Text): Text {
    if s == [] then []
    else if |s| >= 2 && IsHighSurrogate(s[0]) && IsLowSurrogate(s[1]) then
      [s[0]] + ([s[1]] + Escape(s[2..]))
    else EscapeUnit(s[0]) + Escape(s[1..])
  }

  function PrintString(s: Text): Text {
    [QUOTE] + (Escape(s) + [QUOTE])
  }

  function SimpleEscape(u: CodeUnit): Option<CodeUnit> {
    if u == QUOTE || u == BACKSLASH || u == '/' as int then Some(u)
    else if u == 'b' as int then Some(8)
    else if u == 't' as int then Some(9)
    else if u == 'n' as int then Some(10)
    else if u == 'f' as int then Some(12)
    else if u == 'r' as int then Some(13)
    else None
  }

  /** Reads one possibly escaped code unit: the unit and how much text it took. */
  function ReadUnit(t: Text): (r: Option<(CodeUnit, nat)>)
    requires t != []
    ensures r.Some? ==> 1 <= r.value.1 <= |t|
  {
    if t[0] != BACKSLASH then
      if t[0] < 0x20 then None else Some((t[0], 1))
    else if |t| >= 6 && t[1] == 'u' as int then
      match (HexValue(t[2]), HexValue(t[3]), HexValue(t[4]), HexValue(t[5]))
      case (Some(a), Some(b), Some(c), Some(d)) =>
        var u := a * 0x1000 + b * 0x100 + c * 16 + d;
        if u < 0x1_0000 then Some((u, 6)) else None
      case _ => None
    else if |t| >= 2 then
      match SimpleEscape(t[1])
      case Some(u) => Some((u, 2))
      case None => None
    else None
  }

  /** The characters up to the closing quote, and the text after it. */
  function ReadString(t: Text): (r: Option<(Text, Text)>)
    ensures r.Some? ==> |r.value.1| < |t|
    decreases |t|
  {
    if t == [] then None
    else if t[0] == QUOTE then Some(([], t[1..]))
    else match ReadUnit(t)
      case None => None
      case Some((u, n)) =>
        match ReadString(t[n..])
        case None => None
        case Some((s, rest)) => Some(([u] + s, rest))
  }

  lemma ReadHexDigit(d: nat)
    requires d < 16
    ensures HexValue(HexDigit(d)) == Some(d)
  {}

  lemma HexDigits(u: CodeUnit)
    ensures u / 16 / 16 / 16 * 0x1000 + u / 16 / 16 % 16 * 0x100 + u / 16 % 16 * 16 + u % 16 == u
  {}

  lemma ReadHexEscape(u: CodeUnit, rest: Text)
    ensures ReadUnit(UnicodeEscape(u) + rest) == Some((u, 6))
  {
    var e := UnicodeEscape(u);
    IndexLeft(e, rest, 0); IndexLeft(e, rest, 1); IndexLeft(e, rest, 2);
    IndexLeft(e, rest, 3); IndexLeft(e, rest, 4); IndexLeft(e, rest, 5);
    ReadHexDigit(u / 16 / 16 / 16);
    ReadHexDigit(u / 16 / 16 % 16);
    ReadHexDigit(u / 16 % 16);
    ReadHexDigit(u % 16);
    HexDigits(u);
  }

  lemma ReadEscapedUnit(u: CodeUnit, rest: Text)
    ensures EscapeUnit(u) != [] && EscapeUnit(u)[0] != QUOTE
    ensures ReadUnit(EscapeUnit(u) + rest) == Some((u, |EscapeUnit(u)|))
  {
    var e := EscapeUnit(u);
    if e == UnicodeEscape(u) {
      ReadHexEscape(u, rest);
    } else {
      assert (e + rest)[0] == e[0];
      assert |e| == 2 ==> (e + rest)[1] == e[1];
    }
  }

  /** One step of reading: a unit spelled `e`, then text already known to read as `s`. */
  lemma ReadStep(u: CodeUnit, e: Text, after: Text, s: Text, rest: Text)
    requires e != [] && e[0] != QUOTE
    requires ReadUnit(e + after) == Some((u, |e|))
    requires ReadString(after) == Some((s, rest))
    ensures ReadString(e + after) == Some(([u] + s, rest))
  {
    Rest(e, after);
  }

  lemma ReadRawStep(u: CodeUnit, after: Text, s: Text, rest: Text)
    requires u >= 0x20 && u != QUOTE && u != BACKSLASH
    requires ReadString(after) == Some((s, rest))
    ensures ReadString([u] + after) == Some(([u] + s, rest))
  {
    Head(u, after);
  }

  lemma {:induction false} ReadEscaped(s: Text, rest: Text)
    ensures ReadString(Escape(s) + ([QUOTE] + rest)) == Some((s, rest))
    decreases |s|
  {
    var end := [QUOTE] + rest;
    if s == [] {
      Head(QUOTE, rest);
      assert Escape(s) + end == end;
    } else {
      Uncons(s);
      if |s| >= 2 && IsHighSurrogate(s[0]) && IsLowSurrogate(s[1]) {
        ReadEscapedPair(s, rest);
      } else {
        ReadEscaped(s[1..], rest);
        ReadEscapedUnit(s[0], Escape(s[1..]) + end);
        ReadStep(s[0], EscapeUnit(s[0]), Escape(s[1..]) + end, s[1..], rest);
        Assoc(EscapeUnit(s[0]), Escape(s[1..]), end);
      }
    }
  }

  lemma {:induction false} ReadEscapedPair(s: Text, rest: Text)
    requires |s| >= 2 && IsHighSurrogate(s[0]) && IsLowSurrogate(s[1])
    ensures ReadString(Escape(s) + ([QUOTE] + rest)) == Some((s, rest))
    decreases |s|, 0
  {
    var end := [QUOTE] + rest;
    var tail := s[2..];
    ReadEscaped(tail, rest);
    Uncons(s);
    Uncons(s[1..]);
    assert s[1..][1..] == tail;
    ReadRawStep(s[1], Escape(tail) + end, tail, rest);
    ReadRawStep(s[0], [s[1]] + (Escape(tail) + end), [s[1]] + tail, rest);
    Assoc([s[1]], Escape(tail), end);
    Assoc([s[0]], [s[1]] + Escape(tail), end);
  }

  // ----- Numbers -----

  function PrintFraction(fraction: Text): Text {
    if fraction == [] then [] else [DOT] + fraction
  }

  function PrintUnsigned(n: Number): Text {
    PrintNat(n.whole) + PrintFraction(n.fraction)
  }

  function PrintNumber(n: Number): Text {
    if n.negative then [MINUS] + PrintUnsigned(n) else PrintUnsigned(n)
  }

  predicate IsNumberUnit(u: CodeUnit) {
    IsDigit(u) || u == MINUS || u == '+' as int || u == DOT || u == 'e' as int || u == 'E' as int
  }

  /** Text that cannot continue a number. */
  predicate Delimited(rest: Text) {
    rest != [] ==> !IsNumberUnit(rest[0])
  }

  /** The fraction digits after a dot, if there are any, and the text after them. */
  function ReadFraction(t: Text): (r: Option<(Text, Text)>)
    ensures r.Some? ==> |r.value.1| <= |t|
  {
    if t == [] || t[0] != DOT then Some(([], t))
    else
      var m := DigitRun(t[1..]);
      if m == 0 then None else Some((t[1..][..m], t[1..][m..]))
  }

  function ReadUnsigned(negative: bool, t: Text): (r: Option<(Number, Text)>)
    ensures r.Some? ==> |r.value.1| < |t|
  {
    var n := DigitRun(t);
    if n == 0 then None
    else match ReadFraction(t[n..])
      case Some((fraction, rest)) => Some((Number(negative, ReadNat(t[..n]), fraction), rest))
      case None => None
  }

  function ReadNumber(t: Text): (r: Option<(Number, Text)>)
    ensures r.Some? ==> |r.value.1| < |t|
  {
    if t != [] && t[0] == MINUS then ReadUnsigned(true, t[1..]) else ReadUnsigned(false, t)
  }

  lemma ReadPrintedFraction(fraction: Text, rest: Text)
    requires AllDigits(fraction) && Delimited(rest)
    ensures ReadFraction(PrintFraction(fraction) + rest) == Some((fraction, rest))
  {
    if fraction == [] {
      assert [] + rest == rest;
    } else {
      Assoc([DOT], fraction, rest);
      Head(DOT, fraction + rest);
      DigitRunStops(fraction, rest);
    }
  }

  lemma FractionIsNoDigit(fraction: Text, rest: Text)
    requires Delimited(rest)
    ensures var t := PrintFraction(fraction) + rest; t != [] ==> !IsDigit(t[0])
  {}

  lemma ReadPrintedUnsigned(n: Number, rest: Text)
    requires NormalNumber(n) && Delimited(rest)
    ensures ReadUnsigned(n.negative, PrintUnsigned(n) + rest) == Some((n, rest))
  {
    var digits, tail := PrintNat(n.whole), PrintFraction(n.fraction) + rest;
    Assoc(digits, PrintFraction(n.fraction), rest);
    ReadPrintNat(n.whole);
    FractionIsNoDigit(n.fraction, rest);
    DigitRunStops(digits, tail);
    ReadPrintedFraction(n.fraction, rest);
  }

  lemma ReadPrintedNumber(n: Number, rest: Text)
    requires NormalNumber(n) && Delimited(rest)
    ensures ReadNumber(PrintNumber(n) + rest) == Some((n, rest))
  {
    ReadPrintedUnsigned(n, rest);
    NumberStart(n);
    if n.negative {
      Assoc([MINUS], PrintUnsigned(n), rest);
      Head(MINUS, PrintUnsigned(n) + rest);
    } else {
      IndexLeft(PrintUnsigned(n), rest, 0);
    }
  }

  lemma NumberStart(n: Number)
    ensures PrintUnsigned(n) != [] && IsDigit(PrintUnsigned(n)[0])
    ensures PrintNumber(n) != [] && (IsDigit(PrintNumber(n)[0]) || PrintNumber(n)[0] == MINUS)
  {
    IndexLeft(PrintNat(n.whole), PrintFraction(n.fraction), 0);
  }

  // ----- Values -----

  function ArrayText(items: seq<Text>): Text {
    [LBRACKET] + (Join(items, COMMA) + [RBRACKET])
  }

  function ObjectText(members: seq<Text>): Text {
    [LBRACE] + (Join(members, COMMA) + [RBRACE])
  }

  function MemberText(key: Text, value: Text): Text {
    PrintString(key) + ([COLON] + value)
  }

  /** Compact JSON text, members in the order given. */
  function Print(v: Value): Text
    requires IsJson(v)
  {
    match v
    case Null => Ascii("null")
    case Bool(flag) => if flag then Ascii("true") else Ascii("false")
    case Num(n) => PrintNumber(n)
    case Str(s) => PrintString(s)
    case Arr(items) => ArrayText(PrintItems(items))
    case Obj(es) => ObjectText(PrintMembers(es))
  }

  function PrintItems(items: seq<Value>): (r: seq<Text>)
    requires forall i | 0 <= i < |items| :: IsJson(items[i])
    ensures |r| == |items| && forall i | 0 <= i < |items| :: r[i] == Print(items[i])
  {
    seq(|items|, i requires 0 <= i < |items| => Print(items[i]))
  }

  function PrintMembers(es: seq<Entry>): (r: seq<Text>)
    requires forall i | 0 <= i < |es| :: IsJson(es[i].value)
    ensures |r| == |es| && forall i | 0 <= i < |es| :: r[i] == MemberText(es[i].key, Print(es[i].value))
  {
    seq(|es|, i requires 0 <= i < |es| => MemberText(es[i].key, Print(es[i].value)))
  }

  function ReadValue(t: Text): (r: Option<(Value, Text)>)
    ensures r.Some? ==> |r.value.1| < |t|
    decreases |t|, 0
  {
    if t == [] then None
    else if t[0] == 'n' as int then ReadWord(Ascii("null"), Null, t)
    else if t[0] == 't' as int then ReadWord(Ascii("true"), Bool(true), t)
    else if t[0] == 'f' as int then ReadWord(Ascii("false"), Bool(false), t)
    else if t[0] == QUOTE then
      match ReadString(t[1..])
      case Some((s, rest)) => Some((Str(s), rest))
      case None => None
    else if t[0] == LBRACKET then
      if |t| > 1 && t[1] == RBRACKET then Some((Arr([]), t[2..]))
      else match ReadItems(t[1..])
        case Some((items, rest)) => Some((Arr(items), rest))
        case None => None
    else if t[0] == LBRACE then
      if |t| > 1 && t[1] == RBRACE then Some((Obj([]), t[2..]))
      else match ReadMembers(t[1..])
        case Some((es, rest)) => Some((Obj(es), rest))
        case None => None
    else match ReadNumber(t)
      case Some((n, rest)) => Some((Num(n), rest))
      case None => None
  }

  function ReadWord(word: Text, v: Value, t: Text): (r: Option<(Value, Text)>)
    requires word != []
    ensures r.Some? ==> |r.value.1| < |t|
  {
    if word <= t then Some((v, t[|word|..])) else None
  }

  /** One or more values separated by commas, up to the closing bracket. */
  function ReadItems(t: Text): (r: Option<(seq<Value>, Text)>)
    ensures r.Some? ==> |r.value.1| < |t|
    decreases |t|, 1
  {
    match ReadValue(t)
    case None => None
    case Some((v, after)) =>
      if after == [] then None
      else if after[0] == RBRACKET then Some(([v], after[1..]))
      else if after[0] != COMMA then None
      else match ReadItems(after[1..])
        case Some((vs, rest)) => Some(([v] + vs, rest))
        case None => None
  }

  function ReadMember(t: Text): (r: Option<(Entry, Text)>)
    ensures r.Some? ==> |r.value.1| < |t|
    decreases |t|, 1
  {
    if t == [] || t[0] != QUOTE then None
    else match ReadString(t[1..])
      case None => None
      case Some((key, after)) =>
        if after == [] || after[0] != COLON then None
        else match ReadValue(after[1..])
          case Some((v, rest)) => Some((Entry(key, v), rest))
          case None => None
  }

  /** One or more members separated by commas, up to the closing brace. */
  function ReadMembers(t: Text): (r: Option<(seq<Entry>, Text)>)
    ensures r.Some? ==> |r.value.1| < |t|
    decreases |t|, 2
  {
    match ReadMember(t)
    case None => None
    case Some((e, after)) =>
      if after == [] then None
      else if after[0] == RBRACE then Some(([e], after[1..]))
      else if after[0] != COMMA then None
      else match ReadMembers(after[1..])
        case Some((es, rest)) => Some(([e] + es, rest))
        case None => None
  }

  /** Whole-text reading: nothing may follow the value. */
  function Parse(t: Text): Option<Value> {
    match ReadValue(t)
    case Some((v, rest)) => if rest == [] then Some(v) else None
    case None => None
  }

  // ----- The reader inverts the printer -----

  lemma ReadPrintedString(s: Text, rest: Text)
    ensures PrintString(s) + rest == [QUOTE] + (PrintString(s) + rest)[1..]
    ensures ReadString((PrintString(s) + rest)[1..]) == Some((s, rest))
  {
    Wrapped(QUOTE, Escape(s), QUOTE, rest);
    Head(QUOTE, Escape(s) + ([QUOTE] + rest));
    ReadEscaped(s, rest);
  }

  lemma ReadPrintedWord(word: Text, v: Value, rest: Text)
    requires word != []
    ensures ReadWord(word, v, word + rest) == Some((v, rest))
  {
    Rest(word, rest);
  }

  lemma PrintStart(v: Value)
    requires IsJson(v)
    ensures Print(v) != [] && Print(v)[0] != RBRACKET
  {
    if v.Num? { NumberStart(v.number); }
  }

  /** Printed text is self-delimiting: reading takes exactly the value back and leaves the rest. */
  lemma {:induction false} ReadPrinted(v: Value, rest: Text)
    requires IsJson(v) && Delimited(rest)
    ensures ReadValue(Print(v) + rest) == Some((v, rest))
    decreases v, 0
  {
    match v
    case Null => ReadPrintedWord(Ascii("null"), v, rest);
    case Bool(flag) => ReadPrintedWord(Print(v), v, rest);
    case Num(n) =>
      ReadPrintedNumber(n, rest);
      NumberStart(n);
      IndexLeft(PrintNumber(n), rest, 0);
    case Str(s) => ReadPrintedString(s, rest);
    case Arr(items) => ReadPrintedArray(v, rest);
    case Obj(es) => ReadPrintedObject(v, rest);
  }

  lemma ReadArrayStep(items: seq<Value>, inner: Text, rest: Text)
    requires inner != [] && inner[0] != RBRACKET
    requires ReadItems(inner) == Some((items, rest))
    ensures ReadValue([LBRACKET] + inner) == Some((Arr(items), rest))
  {
    Head(LBRACKET, inner);
  }

  lemma {:induction false} ReadPrintedArray(v: Value, rest: Text)
    requires v.Arr? && IsJson(v)
    ensures ReadValue(Print(v) + rest) == Some((v, rest))
    decreases v, 0, 0
  {
    var texts := PrintItems(v.items);
    if v.items == [] {
      assert Print(v) == [LBRACKET, RBRACKET];
      Rest(Print(v), rest);
    } else {
      var body := Join(texts, COMMA);
      ReadPrintedItems(v, 0, rest);
      assert texts[0..] == texts && v.items[0..] == v.items;
      PrintStart(v.items[0]);
      JoinStep(texts, 0, COMMA);
      assert body[0] == texts[0][0];
      IndexLeft(body, [RBRACKET] + rest, 0);
      ReadArrayStep(v.items, body + ([RBRACKET] + rest), rest);
      Wrapped(LBRACKET, body, RBRACKET, rest);
    }
  }

  lemma ReadItemsLast(t: Text, v: Value, rest: Text)
    requires ReadValue(t) == Some((v, [RBRACKET] + rest))
    ensures ReadItems(t) == Some(([v], rest))
  {
    Head(RBRACKET, rest);
  }

  lemma ReadItemsMore(t: Text, v: Value, more: Text, vs: seq<Value>, rest: Text)
    requires ReadValue(t) == Some((v, [COMMA] + more))
    requires ReadItems(more) == Some((vs, rest))
    ensures ReadItems(t) == Some(([v] + vs, rest))
  {
    Head(COMMA, more);
  }

  lemma {:induction false} ReadPrintedItems(v: Value, k: nat, rest: Text)
    requires v.Arr? && IsJson(v) && k < |v.items|
    ensures ReadItems(Join(PrintItems(v.items)[k..], COMMA) + ([RBRACKET] + rest)) == Some((v.items[k..], rest))
    decreases v, 0, 0, |v.items| - k
  {
    var texts := PrintItems(v.items);
    var end := [RBRACKET] + rest;
    JoinStep(texts, k, COMMA);
    if k == |v.items| - 1 {
      ReadPrinted(v.items[k], end);
      ReadItemsLast(texts[k] + end, v.items[k], rest);
      assert v.items[k..] == [v.items[k]];
    } else {
      var more := Join(texts[k + 1..], COMMA);
      ReadPrinted(v.items[k], [COMMA] + (more + end));
      ReadPrintedItems(v, k + 1, rest);
      ReadItemsMore(texts[k] + ([COMMA] + (more + end)), v.items[k], more + end, v.items[k + 1..], rest);
      Regroup(texts[k], COMMA, more, end);
      Suffix(v.items, k);
    }
  }

  lemma ReadObjectStep(es: seq<Entry>, inner: Text, rest: Text)
    requires inner != [] && inner[0] != RBRACE
    requires ReadMembers(inner) == Some((es, rest))
    ensures ReadValue([LBRACE] + inner) == Some((Obj(es), rest))
  {
    Head(LBRACE, inner);
  }

  lemma {:induction false} ReadPrintedObject(v: Value, rest: Text)
    requires v.Obj? && IsJson(v)
    ensures ReadValue(Print(v) + rest) == Some((v, rest))
    decreases v, 0, 0
  {
    var texts := PrintMembers(v.entries);
    if v.entries == [] {
      assert Print(v) == [LBRACE, RBRACE];
      Rest(Print(v), rest);
    } else {
      var body := Join(texts, COMMA);
      ReadPrintedMembers(v, 0, rest);
      assert texts[0..] == texts && v.entries[0..] == v.entries;
      JoinStep(texts, 0, COMMA);
      assert body[0] == texts[0][0] == QUOTE;
      IndexLeft(body, [RBRACE] + rest, 0);
      ReadObjectStep(v.entries, body + ([RBRACE] + rest), rest);
      Wrapped(LBRACE, body, RBRACE, rest);
    }
  }

  lemma ReadMemberStep(key: Text, t: Text, v: Value, more: Text, rest: Text)
    requires ReadString(t) == Some((key, [COLON] + more))
    requires ReadValue(more) == Some((v, rest))
    ensures ReadMember([QUOTE] + t) == Some((Entry(key, v), rest))
  {
    Head(QUOTE, t);
    Head(COLON, more);
  }

  lemma {:induction false} ReadPrintedMember(e: Entry, rest: Text)
    requires IsJson(e.value) && Delimited(rest)
    ensures ReadMember(MemberText(e.key, Print(e.value)) + rest) == Some((e, rest))
    decreases e, 1
  {
    var key, text := PrintString(e.key), Print(e.value);
    var t := key + ([COLON] + (text + rest));
    ReadPrinted(e.value, rest);
    ReadPrintedString(e.key, [COLON] + (text + rest));
    ReadMemberStep(e.key, t[1..], e.value, text + rest, rest);
    Regroup(key, COLON, text, rest);
  }

  lemma ReadMembersLast(t: Text, e: Entry, rest: Text)
    requires ReadMember(t) == Some((e, [RBRACE] + rest))
    ensures ReadMembers(t) == Some(([e], rest))
  {
    Head(RBRACE, rest);
  }

  lemma ReadMembersMore(t: Text, e: Entry, more: Text, es: seq<Entry>, rest: Text)
    requires ReadMember(t) == Some((e, [COMMA] + more))
    requires ReadMembers(more) == Some((es, rest))
    ensures ReadMembers(t) == Some(([e] + es, rest))
  {
    Head(COMMA, more);
  }

  lemma {:induction false} ReadPrintedMembers(v: Value, k: nat, rest: Text)
    requires v.Obj? && IsJson(v) && k < |v.entries|
    ensures ReadMembers(Join(PrintMembers(v.entries)[k..], COMMA) + ([RBRACE] + rest)) == Some((v.entries[k..], rest))
    decreases v, 0, 0, |v.entries| - k
  {
    var texts := PrintMembers(v.entries);
    var end := [RBRACE] + rest;
    JoinStep(texts, k, COMMA);
    if k == |v.entries| - 1 {
      ReadPrintedMember(v.entries[k], end);
      ReadMembersLast(texts[k] + end, v.entries[k], rest);
      assert v.entries[k..] == [v.entries[k]];
    } else {
      var more := Join(texts[k + 1..], COMMA);
      ReadPrintedMember(v.entries[k], [COMMA] + (more + end));
      ReadPrintedMembers(v, k + 1, rest);
      ReadMembersMore(texts[k] + ([COMMA] + (more + end)), v.entries[k], more + end, v.entries[k + 1..], rest);
      Regroup(texts[k], COMMA, more, end);
      Suffix(v.entries, k);
    }
  }

  lemma ParsePrinted(v: Value)
    requires IsJson(v)
    ensures Parse(Print(v)) == Some(v)
  {
    ReadPrinted(v, []);
    assert Print(v) + [] == Print(v);
  }

  /** Text after a value, or a bare control character in a string, is no JSON. */
  lemma StrayTextFails(v: Value, rest: Text, u: CodeUnit)
    ensures IsJson(v) && Delimited(rest) && rest != [] ==> Parse(Print(v) + rest) == None
    ensures u < 0x20 ==> ReadString([u] + rest) == None
  {
    if IsJson(v) && Delimited(rest) { ReadPrinted(v, rest); }
    Head(u, rest);
  }
}
