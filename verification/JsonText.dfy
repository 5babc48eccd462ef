/** JSON text as the standards spell it, without reference to the printer, and that the printer prints it. */
module JsonText {
  import opened Texts
  import opened Decimals
  import opened Json

  // ----- Numbers -----

  /** A digit, or digits of which the first is not zero. */
  predicate IsNumeral(t: Text) {
    t != [] && (forall i | 0 <= i < |t| :: '0' as int <= t[i] <= '9' as int) && (|t| > 1 ==> t[0] != '0' as int)
  }

  /** What digits from `i` on add to a number whose earlier digits denote `before`. */
  function PlaceValue(t: Text, i: nat, before: int): int
    requires i <= |t|
    decreases |t| - i
  {
    if i == |t| then before else PlaceValue(t, i + 1, 10 * before + (t[i] - '0' as int))
  }

  /**
   * `t` spells `n`, with `whole` before the dot: a minus sign exactly for a negative number, then the
   * numeral of the whole part, then nothing or a dot and the fraction digits.
   */
  ghost predicate Spells(t: Text, n: Number, whole: Text) {
    && IsNumeral(whole) && PlaceValue(whole, 0, 0) == n.whole
    && t == Ascii(if n.negative then "-" else "") + (whole + (if n.fraction == [] then [] else Ascii(".") + n.fraction))
  }

  ghost predicate IsNumberText(t: Text, n: Number) {
    exists whole :: Spells(t, n, whole)
  }

  lemma {:induction false} PlaceValueIs(t: Text, i: nat)
    requires i <= |t| && AllDigits(t)
    ensures PlaceValue(t, i, ReadNat(t[..i])) == ReadNat(t)
    decreases |t| - i
  {
    if i < |t| {
      assert t[..i + 1][..i] == t[..i];
      PlaceValueIs(t, i + 1);
    } else {
      assert t[..i] == t;
    }
  }

  lemma ReadNatStep(front: Text, digit: CodeUnit)
    requires AllDigits(front) && IsDigit(digit)
    ensures AllDigits(front + [digit])
    ensures ReadNat(front + [digit]) == 10 * ReadNat(front) + (digit - '0' as int)
    ensures ReadNat([]) == 0
  {
    assert (front + [digit])[..|front|] == front;
  }

  lemma PrintNatStep(a: nat, b: nat)
    requires b < 10
    ensures a > 0 ==> PrintNat(10 * a + b) == PrintNat(a) + ['0' as int + b]
    ensures PrintNat(b) == ['0' as int + b]
  {}

  lemma {:induction false} NumeralIs(t: Text)
    requires IsNumeral(t)
    ensures t == PrintNat(ReadNat(t))
    ensures t[0] != '0' as int ==> ReadNat(t) > 0
  {
    hide ReadNat, PrintNat;
    var front, digit := t[..|t| - 1], t[|t| - 1];
    assert t == front + [digit];
    ReadNatStep(front, digit);
    PrintNatStep(ReadNat(front), digit - '0' as int);
    if front != [] {
      NumeralIs(front);
    } else {
      assert t == [digit];
    }
  }

  lemma {:induction false} PrintedIsNumeral(n: nat)
    ensures IsNumeral(PrintNat(n)) && (n > 0 ==> PrintNat(n)[0] != '0' as int)
  {
    if n >= 10 {
      PrintedIsNumeral(n / 10);
    }
  }

  /** The number text is the one that spells the number, and no other. */
  lemma NumberTextIff(n: Number, t: Text)
    ensures IsNumberText(t, n) <==> t == PrintNumber(n)
  {
    hide PrintNat, ReadNat, PlaceValue;
    var own := PrintNat(n.whole);
    PrintedIsNumeral(n.whole);
    ReadPrintNat(n.whole);
    WholeValue(own);
    assert Ascii("-") == [MINUS] && Ascii("") == [] && Ascii(".") == [DOT];
    assert [] + PrintUnsigned(n) == PrintUnsigned(n);
    assert Spells(PrintNumber(n), n, own);
    if IsNumberText(t, n) {
      var whole :| Spells(t, n, whole);
      WholeValue(whole);
      NumeralIs(whole);
    }
  }

  lemma WholeValue(t: Text)
    requires AllDigits(t)
    ensures PlaceValue(t, 0, 0) == ReadNat(t)
  {
    PlaceValueIs(t, 0);
    assert t[..0] == [];
  }

  /** The text of a number. */
  ghost function NumberText(n: Number): (t: Text)
    ensures IsNumberText(t, n)
  {
    NumberTextIff(n, PrintNumber(n));
    var t :| IsNumberText(t, n);
    t
  }

  lemma NumberTextIs(n: Number)
    ensures PrintNumber(n) == NumberText(n)
  {
    NumberTextIff(n, NumberText(n));
  }

  /** A bigint is printed as the number it is. */
  lemma IntegerTextIs(n: int)
    ensures IsNumberText(PrintInt(n), Number(n < 0, if n < 0 then -n else n, []))
  {
    var x := Number(n < 0, if n < 0 then -n else n, []);
    NumberTextIff(x, PrintInt(n));
    assert PrintNat(x.whole) + [] == PrintNat(x.whole);
  }

  /** A natural is printed as its numeral. */
  lemma NaturalTextIs(n: nat)
    ensures IsNumeral(PrintNat(n)) && PlaceValue(PrintNat(n), 0, 0) == n
  {
    PrintedIsNumeral(n);
    ReadPrintNat(n);
    WholeValue(PrintNat(n));
  }

  // ----- Strings -----

  const HEX: Text := Ascii("0123456789abcdef")

  /** `\u` and four lower-case hex digits. */
  function Unicode(u: CodeUnit): Text {
    Ascii("\\u") + [HEX[u / 0x1000], HEX[u / 0x100 % 0x10], HEX[u / 0x10 % 0x10], HEX[u % 0x10]]
  }

  /** One unit of a string that is not half of a pair, section 25.5.4.3 of ECMA-262. */
  function QuotedUnit(u: CodeUnit): Text {
    if u == 0x22 then Ascii("\\\"")
    else if u == 0x5C then Ascii("\\\\")
    else if u == 0x08 then Ascii("\\b")
    else if u == 0x09 then Ascii("\\t")
    else if u == 0x0A then Ascii("\\n")
    else if u == 0x0C then Ascii("\\f")
    else if u == 0x0D then Ascii("\\r")
    else if u < 0x20 || 0xD800 <= u <= 0xDFFF then Unicode(u)
    else [u]
  }

  function QuotedUnits(s: Text): Text
    decreases |s|
  {
    if s == [] then []
    else if |s| >= 2 && 0xD800 <= s[0] < 0xDC00 <= s[1] < 0xE000 then s[..2] + QuotedUnits(s[2..])
    else QuotedUnit(s[0]) + QuotedUnits(s[1..])
  }

  function StringText(s: Text): Text {
    Ascii("\"") + QuotedUnits(s) + Ascii("\"")
  }

  lemma HexDigitIs(d: nat)
    requires d < 16
    ensures HexDigit(d) == HEX[d]
  {}

  lemma UnicodeIs(u: CodeUnit)
    ensures UnicodeEscape(u) == Unicode(u)
  {
    HexDigitIs(u / 0x1000);
    HexDigitIs(u / 0x100 % 0x10);
    HexDigitIs(u / 0x10 % 0x10);
    HexDigitIs(u % 0x10);
    assert u / 16 / 16 / 16 == u / 0x1000 && u / 16 / 16 == u / 0x100;
    assert Ascii("\\u") == [BACKSLASH, 'u' as int];
  }

  lemma QuotedUnitIs(u: CodeUnit)
    ensures EscapeUnit(u) == QuotedUnit(u)
  {
    UnicodeIs(u);
  }

  lemma {:induction false} QuotedUnitsAre(s: Text)
    ensures Escape(s) == QuotedUnits(s)
    decreases |s|
  {
    hide EscapeUnit, QuotedUnit;
    if s != [] {
      if |s| >= 2 && IsHighSurrogate(s[0]) && IsLowSurrogate(s[1]) {
        QuotedUnitsAre(s[2..]);
        assert s[..2] == [s[0]] + [s[1]];
      } else {
        QuotedUnitsAre(s[1..]);
        QuotedUnitIs(s[0]);
      }
    }
  }

  /** Strings are quoted as the language standard says, lone surrogates escaped. */
  lemma StringTextIs(s: Text)
    ensures PrintString(s) == StringText(s)
  {
    QuotedUnitsAre(s);
    assert Ascii("\"") == [QUOTE];
  }

  // ----- Lists -----

  function Commas(texts: seq<Text>): Text {
    if texts == [] then [] else if |texts| == 1 then texts[0] else texts[0] + Ascii(",") + Commas(texts[1..])
  }

  function ListText(open: string, texts: seq<Text>, close: string): Text
    requires forall i | 0 <= i < |open| :: open[i] as int < 128
    requires forall i | 0 <= i < |close| :: close[i] as int < 128
  {
    Ascii(open) + Commas(texts) + Ascii(close)
  }

  lemma {:induction false} CommasAre(texts: seq<Text>)
    ensures Join(texts, COMMA) == Commas(texts)
  {
    if |texts| > 1 {
      CommasAre(texts[1..]);
      assert Ascii(",") == [COMMA];
    }
  }

  lemma ListsAre(texts: seq<Text>)
    ensures ArrayText(texts) == ListText("[", texts, "]") && ObjectText(texts) == ListText("{", texts, "}")
  {
    CommasAre(texts);
    assert Ascii("[") == [LBRACKET] && Ascii("]") == [RBRACKET] && Ascii("{") == [LBRACE] && Ascii("}") == [RBRACE];
  }

  // ----- Values -----

  /** The compact text of a value, members in the order given. */
  ghost function TextOf(v: Value): Text
    requires IsJson(v)
    decreases v
  {
    match v
    case Null => Ascii("null")
    case Bool(flag) => Ascii(if flag then "true" else "false")
    case Num(n) => NumberText(n)
    case Str(s) => StringText(s)
    case Arr(items) => ListText("[", seq(|items|, i requires 0 <= i < |items| => TextOf(items[i])), "]")
    case Obj(es) =>
      ListText("{",
        seq(|es|, i requires 0 <= i < |es| => StringText(es[i].key) + Ascii(":") + TextOf(es[i].value)), "}")
  }

  lemma {:induction false} PrintIsTextOf(v: Value)
    requires IsJson(v)
    ensures Print(v) == TextOf(v)
    decreases v
  {
    hide StringText, PrintNumber, PrintString, ListText, ArrayText, ObjectText;
    match v
    case Num(n) => NumberTextIs(n);
    case Str(s) => StringTextIs(s);
    case Arr(items) =>
      forall i | 0 <= i < |items| { PrintIsTextOf(items[i]); }
      ListsAre(PrintItems(items));
      assert PrintItems(items) == seq(|items|, i requires 0 <= i < |items| => TextOf(items[i]));
    case Obj(es) =>
      forall i | 0 <= i < |es|
        ensures PrintMembers(es)[i] == StringText(es[i].key) + Ascii(":") + TextOf(es[i].value)
      {
        PrintIsTextOf(es[i].value);
        StringTextIs(es[i].key);
        assert Ascii(":") == [COLON];
      }
      ListsAre(PrintMembers(es));
      assert PrintMembers(es) ==
        seq(|es|, i requires 0 <= i < |es| => StringText(es[i].key) + Ascii(":") + TextOf(es[i].value));
    case _ =>
  }
}
