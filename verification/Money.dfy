/** Exact 18-decimal dollar amounts: ceiling division, text in and out, and price headroom. */
module Money {
  import opened Arithmetic
  import opened Texts
  import opened Decimals
  import opened Json
  import opened JsonText

  const USD_DECIMALS: nat := 18
  const BPS: int := 10_000
  const PURCHASE_SLIPPAGE_BPS: int := 50
  const BID_HEADROOM_BPS: int := 50
  const CENT: int := 10_000_000_000_000_000

  // ----- Ceiling division -----

  /** Bigint division, which drops the fraction towards zero. */
  function Truncate(a: int, b: int): int
    requires b != 0
  {
    if (a < 0) == (b < 0) then Abs(a) / Abs(b) else -(Abs(a) / Abs(b))
  }

  function Abs(a: int): int { if a < 0 then -a else a }

  /** `ceilMulDiv`; nothing when it throws. */
  function CeilMulDiv(value: int, multiplier: int, divisor: int): Option<int> {
    if divisor == 0 then None
    else if value == 0 || multiplier == 0 then Some(0)
    else Some(Truncate(value * multiplier + divisor - 1, divisor))
  }

  /** `q` is the least integer at or above `p / d`. */
  predicate IsCeiling(q: int, p: int, d: int) {
    if d > 0 then q * d >= p && (q - 1) * d < p else q * d <= p && (q - 1) * d > p
  }

  lemma CeilingOf(p: int, d: int)
    requires d > 0
    ensures IsCeiling((p + d - 1) / d, p, d)
  {
    var q := (p + d - 1) / d;
    DivMod(p + d - 1, d);
    Spread(q, 1, d);
  }

  lemma CeilingUnique(q: int, q': int, p: int, d: int)
    requires d > 0 && IsCeiling(q, p, d) && IsCeiling(q', p, d)
    ensures q == q'
  {
    if q < q' {
      ScaleUp(q, q' - 1, d);
    } else if q' < q {
      ScaleUp(q', q - 1, d);
    }
  }

  /** Truncation is rounding down, except that a negative fraction goes up instead. */
  lemma TruncateIs(a: int, d: int)
    requires d > 0
    ensures Truncate(a, d) == if a >= 0 || a % d == 0 then a / d else a / d + 1
  {
    if a < 0 {
      DivMod(a, d);
      var q, r := a / d, a % d;
      if r == 0 {
        assert -a == -q * d by { Spread(0, q, d); }
        QuotientIs(-a, d, -q, 0);
      } else {
        assert -a == (-q - 1) * d + (d - r) by { Spread(0, q, d); Spread(-q, 1, d); }
        QuotientIs(-a, d, -q - 1, d - r);
      }
    }
  }

  lemma PositiveDivisor(value: int, multiplier: int, d: int)
    requires d > 0 && value != 0 && multiplier != 0
    ensures var p := value * multiplier;
      IsCeiling(CeilMulDiv(value, multiplier, d).value, p, d) <==> p > -d || (p + d - 1) % d == 0
  {
    var p := value * multiplier;
    var a := p + d - 1;
    TruncateIs(a, d);
    CeilingOf(p, d);
    if a < 0 && a % d != 0 && IsCeiling(a / d + 1, p, d) {
      CeilingUnique(a / d, a / d + 1, p, d);
    }
  }

  /** Over a divisor below zero the correction has the wrong sign, so the dividend is two too high. */
  lemma NegativeDivisor(value: int, multiplier: int, d: int)
    requires d < 0 && value != 0 && multiplier != 0
    ensures var p := value * multiplier;
      IsCeiling(CeilMulDiv(value, multiplier, d).value, p, d) <==> p + d <= 1 && p % d > 1
  {
    hide Truncate, IsCeiling;
    var p, e := value * multiplier, -d;
    var a := -p + e - 1;
    var c, r := a / e, a % e;
    var q := Truncate(a + 2, e);
    TruncateFlips(p + d - 1, d);
    TruncateIs(a + 2, e);
    CeilingOf(-p, e);
    CeilingFlips(q, p, d);
    SameCeiling(q, c, -p, e);
    DivMod(a, e);
    Remainder(p, e, c, r);
    if r + 2 < e {
      QuotientIs(a + 2, e, c, r + 2);
    } else {
      StepsUp(a, e, c, r);
    }
  }

  lemma TruncateFlips(a: int, d: int)
    requires d != 0
    ensures Truncate(a, d) == Truncate(-a, -d)
  {
    QuotientIs(0, Abs(d), 0, 0);
  }

  lemma CeilingFlips(q: int, p: int, d: int)
    requires d < 0
    ensures IsCeiling(q, p, d) <==> IsCeiling(q, -p, -d)
  {
    Flip(q, d);
    Flip(q - 1, d);
  }

  lemma Flip(a: int, d: int)
    ensures a * -d == -(a * d)
  {}

  lemma SameCeiling(q: int, c: int, p: int, d: int)
    requires d > 0 && IsCeiling(c, p, d)
    ensures IsCeiling(q, p, d) <==> q == c
  {
    if IsCeiling(q, p, d) { CeilingUnique(q, c, p, d); }
  }

  /** How `p` relates to the quotient and remainder of `-p + e - 1`. */
  lemma Remainder(p: int, e: int, c: int, r: int)
    requires e > 0 && -p + e - 1 == c * e + r && 0 <= r < e
    ensures p % -e == e - 1 - r
  {
    Spread(0, c, e);
    assert p == -c * e + (e - 1 - r);
    QuotientIs(p, e, -c, e - 1 - r);
    assert p % -e == p % e by { FlipModulus(p, e); }
  }

  lemma FlipModulus(p: int, e: int)
    requires e > 0
    ensures p % -e == p % e
  {}

  lemma StepsUp(a: int, e: int, c: int, r: int)
    requires e > 0 && a == c * e + r && 0 <= r < e <= r + 2
    ensures (a + 2) / e > c
  {
    DivMod(a + 2, e);
    var f := (a + 2) / e;
    if f <= c {
      ScaleUp(f, c, e);
    }
  }

  /**
   * The exact condition under which the result is the ceiling. A product at or below minus a positive
   * divisor rounds one too high unless it is one more than a multiple of the divisor.
   */
  lemma CeilMulDivIsCeilingIff(value: int, multiplier: int, divisor: int)
    requires divisor != 0
    ensures CeilMulDiv(value, multiplier, divisor).Some?
    ensures var p := value * multiplier;
      IsCeiling(CeilMulDiv(value, multiplier, divisor).value, p, divisor) <==>
        if divisor > 0 then p > -divisor || (p + divisor - 1) % divisor == 0
        else p == 0 || (p + divisor <= 1 && p % divisor > 1)
  {
    if value == 0 || multiplier == 0 {
      assert value * multiplier == 0;
      Flip(1, divisor);
    } else {
      NoZeroProduct(value, multiplier);
      if divisor > 0 {
        PositiveDivisor(value, multiplier, divisor);
      } else {
        NegativeDivisor(value, multiplier, divisor);
      }
    }
  }

  lemma NoZeroProduct(a: int, b: int)
    requires a != 0 && b != 0
    ensures a * b != 0
  {}

  /** In every case the result is the corrected product over the divisor, its fraction dropped towards zero. */
  lemma CeilMulDivTruncates(value: int, multiplier: int, divisor: int)
    ensures CeilMulDiv(value, multiplier, divisor).None? <==> divisor == 0
    ensures value == 0 || multiplier == 0 ==> divisor != 0 ==> CeilMulDiv(value, multiplier, divisor) == Some(0)
    ensures value != 0 && multiplier != 0 && divisor != 0 ==>
      var corrected, r := value * multiplier + divisor - 1, CeilMulDiv(value, multiplier, divisor).value;
      && Abs(r) * Abs(divisor) <= Abs(corrected) < (Abs(r) + 1) * Abs(divisor)
      && (r != 0 ==> (r < 0 <==> (corrected < 0) != (divisor < 0)))
  {
    if value != 0 && multiplier != 0 && divisor != 0 {
      var corrected := value * multiplier + divisor - 1;
      var q := Abs(corrected) / Abs(divisor);
      DivMod(Abs(corrected), Abs(divisor));
      if q < 0 { ScaleUp(q, -1, Abs(divisor)); }
      assert (q + 1) * Abs(divisor) == q * Abs(divisor) + Abs(divisor);
    }
  }

  /** Minus four thirds rounds up to minus one, and the code returns zero. */
  lemma NegativeProductRoundsTooHigh()
    ensures CeilMulDiv(-4, 1, 3) == Some(0)
    ensures IsCeiling(-1, -4, 3) && !IsCeiling(0, -4, 3)
  {
    TruncateIs(-2, 3);
  }

  // ----- Text to base units -----

  /** `/^\d+(?:\.\d{0,18})?$/`. */
  predicate WellFormed(t: Text) {
    var n := DigitRun(t);
    n > 0 && (n == |t| || (t[n] == DOT && |t| - n - 1 <= USD_DECIMALS && AllDigits(t[n + 1..])))
  }

  function WholePart(t: Text): Text { t[..DigitRun(t)] }

  function FractionPart(t: Text): Text {
    if DigitRun(t) < |t| then t[DigitRun(t) + 1..] else []
  }

  /** `usdInputToBaseUnits`; nothing when it throws. */
  function UsdInputToBaseUnits(t: Text): Option<int> {
    if WellFormed(t)
    then
      PadEndDigits(FractionPart(t), USD_DECIMALS);
      Some(ReadNat(WholePart(t)) * Pow10(USD_DECIMALS) + ReadNat(PadEnd(FractionPart(t), USD_DECIMALS)))
    else None
  }

  lemma PadEndDigits(t: Text, width: nat)
    requires AllDigits(t) && |t| <= width
    ensures PadEnd(t, width) == t + Zeros(width - |t|)
    ensures AllDigits(PadEnd(t, width)) && |PadEnd(t, width)| == width
    ensures ReadNat(PadEnd(t, width)) == ReadNat(t) * Pow10(width - |t|)
  {
    ReadZeros(width - |t|);
    ReadConcat(t, Zeros(width - |t|));
    assert |t| == width ==> t + Zeros(0) == t;
  }

  function TrimStart(t: Text): Text {
    if t != [] && IsSpace(t[0]) then TrimStart(t[1..]) else t
  }

  function TrimEnd(t: Text): Text {
    if t != [] && IsSpace(t[|t| - 1]) then TrimEnd(t[..|t| - 1]) else t
  }

  function Trim(t: Text): Text { TrimEnd(TrimStart(t)) }

  /** `parseUsdInput`. */
  function ParseUsdInput(t: Text): Option<int> {
    UsdInputToBaseUnits(Trim(t))
  }

  lemma ParsedIsNotNegative(t: Text)
    ensures ParseUsdInput(t).Some? ==> ParseUsdInput(t).value >= 0
  {
    hide Pow10, ReadNat, PadEnd, Trim;
    var text := Trim(t);
    if WellFormed(text) {
      PadEndDigits(FractionPart(text), USD_DECIMALS);
      ScaleUp(0, ReadNat(WholePart(text)), Pow10(USD_DECIMALS));
    }
  }

  /** `t` is an amount with these digits: the whole part, and up to eighteen after a dot. */
  ghost predicate IsAmount(t: Text, whole: Text, fraction: Text) {
    && whole != [] && AllDigits(whole) && AllDigits(fraction) && |fraction| <= 18
    && (t == whole + (Ascii(".") + fraction) || (fraction == [] && t == whole))
  }

  lemma AmountParts(t: Text, whole: Text, fraction: Text)
    requires IsAmount(t, whole, fraction)
    ensures WellFormed(t) && WholePart(t) == whole && FractionPart(t) == fraction
  {
    assert Ascii(".") == [DOT];
    if t == whole {
      DigitRunStops(whole, []);
      assert whole + [] == whole;
      assert t[..|t|] == t;
    } else {
      DigitRunStops(whole, [DOT] + fraction);
      assert t[|whole|] == DOT;
      assert t[|whole| + 1..] == fraction;
    }
  }

  /** A text is accepted exactly if it is an amount, and then has the value its digits say. */
  lemma AcceptedIff(t: Text)
    ensures UsdInputToBaseUnits(t).Some? <==> exists whole, fraction :: IsAmount(t, whole, fraction)
    ensures forall whole, fraction | IsAmount(t, whole, fraction) ::
      UsdInputToBaseUnits(t) == Some(ReadNat(whole) * Pow10(18) + ReadNat(fraction) * Pow10(18 - |fraction|))
  {
    hide Pow10, ReadNat, PadEnd;
    if WellFormed(t) {
      assert Ascii(".") == [DOT];
      var n := DigitRun(t);
      if n < |t| {
        assert t == t[..n] + (Ascii(".") + t[n + 1..]);
      } else {
        assert t[..n] == t;
      }
      assert IsAmount(t, WholePart(t), FractionPart(t));
    }
    forall whole, fraction | IsAmount(t, whole, fraction)
      ensures UsdInputToBaseUnits(t) == Some(ReadNat(whole) * Pow10(18) + ReadNat(fraction) * Pow10(18 - |fraction|))
    {
      AmountParts(t, whole, fraction);
      PadEndDigits(fraction, USD_DECIMALS);
    }
  }

  predicate AllSpace(t: Text) { forall i | 0 <= i < |t| :: IsSpace(t[i]) }

  lemma {:induction false} TrimEndIs(t: Text) returns (after: Text)
    ensures t == TrimEnd(t) + after && AllSpace(after)
    ensures TrimEnd(t) != [] ==> !IsSpace(TrimEnd(t)[|TrimEnd(t)| - 1]) && TrimEnd(t)[0] == t[0]
  {
    after := [];
    if t != [] && IsSpace(t[|t| - 1]) {
      var front := TrimEndIs(t[..|t| - 1]);
      after := front + [t[|t| - 1]];
    }
  }

  lemma {:induction false} TrimStartIs(t: Text) returns (before: Text)
    ensures t == before + TrimStart(t) && AllSpace(before)
    ensures TrimStart(t) != [] ==> !IsSpace(TrimStart(t)[0])
  {
    before := [];
    if t != [] && IsSpace(t[0]) {
      var tail := TrimStartIs(t[1..]);
      before := [t[0]] + tail;
    }
  }

  /** Trimming takes the white space at both ends, all of it and nothing else. */
  lemma TrimIs(t: Text) returns (before: Text, after: Text)
    ensures t == before + (Trim(t) + after) && AllSpace(before) && AllSpace(after)
    ensures Trim(t) != [] ==> !IsSpace(Trim(t)[0]) && !IsSpace(Trim(t)[|Trim(t)| - 1])
  {
    before := TrimStartIs(t);
    after := TrimEndIs(TrimStart(t));
  }

  /** The decimal a well-formed text denotes is `Mantissa(t) / 10^Scale(t)`. */
  function Mantissa(t: Text): nat
    requires WellFormed(t)
  {
    ReadConcat(WholePart(t), FractionPart(t));
    ReadNat(WholePart(t) + FractionPart(t))
  }

  function Scale(t: Text): nat { |FractionPart(t)| }

  predicate SameDecimal(s: Text, t: Text)
    requires WellFormed(s) && WellFormed(t)
  {
    Mantissa(s) * Pow10(Scale(t)) == Mantissa(t) * Pow10(Scale(s))
  }

  lemma ScaledSum(w: int, f: int, p: int, q: int)
    ensures w * (p * q) + f * q == (w * p + f) * q
  {
    assert w * (p * q) == (w * p) * q;
  }

  /** Parsing is exact: the base units are the denoted decimal times 10^18. */
  lemma ParseIsExact(t: Text)
    requires WellFormed(t)
    ensures Scale(t) <= USD_DECIMALS
    ensures UsdInputToBaseUnits(t) == Some(Mantissa(t) * Pow10(USD_DECIMALS - Scale(t)))
  {
    hide Pow10, ReadNat, PadEnd;
    var whole, fraction := WholePart(t), FractionPart(t);
    var k := USD_DECIMALS - |fraction|;
    PadEndDigits(fraction, USD_DECIMALS);
    ReadConcat(whole, fraction);
    Pow10Add(|fraction|, k);
    ScaledSum(ReadNat(whole), ReadNat(fraction), Pow10(|fraction|), Pow10(k));
  }

  lemma CrossMultiply(m: int, n: int, p: int, q: int, r: int)
    requires p > 0 && q > 0 && r > 0
    ensures m * (q * r) == n * (p * r) <==> m * q == n * p
  {
    assert m * (q * r) == (m * q) * r && n * (p * r) == (n * p) * r;
    if m * q < n * p {
      ScaleUpStrictly(m * q, n * p, r);
    } else if n * p < m * q {
      ScaleUpStrictly(n * p, m * q, r);
    }
  }

  lemma ScaleUpStrictly(a: int, b: int, r: int)
    requires a < b && r > 0
    ensures a * r < b * r
  {}

  /** Two accepted texts give the same base units exactly when they denote the same decimal. */
  lemma SameUnitsIffSameDecimal(s: Text, t: Text)
    requires WellFormed(s) && WellFormed(t)
    ensures UsdInputToBaseUnits(s) == UsdInputToBaseUnits(t) <==> SameDecimal(s, t)
  {
    ParseIsExact(s);
    ParseIsExact(t);
    var a, b := Scale(s), Scale(t);
    if a <= b {
      SameUnitsAt(Mantissa(s), Mantissa(t), a, b);
    } else {
      SameUnitsAt(Mantissa(t), Mantissa(s), b, a);
    }
  }

  lemma SameUnitsAt(m: int, n: int, a: nat, b: nat)
    requires a <= b <= USD_DECIMALS
    ensures m * Pow10(USD_DECIMALS - a) == n * Pow10(USD_DECIMALS - b) <==> m * Pow10(b) == n * Pow10(a)
  {
    hide Pow10;
    var d := b - a;
    Pow10Add(d, USD_DECIMALS - b);
    CrossMultiply(m, n, 1, Pow10(d), Pow10(USD_DECIMALS - b));
    Pow10Add(d, a);
    CrossMultiply(m, n, 1, Pow10(d), Pow10(a));
  }

  lemma {:induction false} TrimStartSkips(spaces: Text, t: Text)
    requires forall i | 0 <= i < |spaces| :: IsSpace(spaces[i])
    ensures TrimStart(spaces + t) == TrimStart(t)
  {
    if spaces == [] {
      assert spaces + t == t;
    } else {
      assert (spaces + t)[1..] == spaces[1..] + t;
      TrimStartSkips(spaces[1..], t);
    }
  }

  lemma {:induction false} TrimEndSkips(t: Text, spaces: Text)
    requires forall i | 0 <= i < |spaces| :: IsSpace(spaces[i])
    ensures TrimEnd(t + spaces) == TrimEnd(t)
    decreases |spaces|
  {
    if spaces == [] {
      assert t + spaces == t;
    } else {
      var front := spaces[..|spaces| - 1];
      assert (t + spaces)[..|t + spaces| - 1] == t + front;
      TrimEndSkips(t, front);
    }
  }

  lemma {:induction false} TrimStartBefore(t: Text, spaces: Text)
    requires forall i | 0 <= i < |spaces| :: IsSpace(spaces[i])
    ensures TrimEnd(TrimStart(t + spaces)) == TrimEnd(TrimStart(t))
  {
    if t == [] {
      assert t + spaces == spaces + [];
      TrimStartSkips(spaces, []);
    } else if IsSpace(t[0]) {
      assert (t + spaces)[1..] == t[1..] + spaces;
      TrimStartBefore(t[1..], spaces);
    } else {
      TrimEndSkips(t, spaces);
    }
  }

  /** White space around a pasted amount does not matter. */
  lemma ParseIgnoresSpace(before: Text, t: Text, after: Text)
    requires forall i | 0 <= i < |before| :: IsSpace(before[i])
    requires forall i | 0 <= i < |after| :: IsSpace(after[i])
    ensures ParseUsdInput(before + (t + after)) == ParseUsdInput(t)
  {
    TrimStartSkips(before, t + after);
    TrimStartBefore(t, after);
  }

  // ----- Base units to text -----

  /** `text.replace(/(0+)$/, '')`. */
  function TrimZeros(t: Text): (r: Text)
    ensures |r| <= |t| && t == r + Zeros(|t| - |r|)
    ensures r != [] ==> r[|r| - 1] != '0' as int
  {
    if t != [] && t[|t| - 1] == '0' as int then TrimZeros(t[..|t| - 1]) else t
  }

  /** The digits of `|value|`, at least eighteen of them. */
  function Padded(value: int): (t: Text)
    ensures |t| >= USD_DECIMALS && AllDigits(t)
    ensures ReadNat(t) == Abs(value)
  {
    var digits := PrintNat(Abs(value));
    ReadPrintNat(Abs(value));
    ReadZeros(if |digits| < USD_DECIMALS then USD_DECIMALS - |digits| else 0);
    ReadConcat(Zeros(if |digits| < USD_DECIMALS then USD_DECIMALS - |digits| else 0), digits);
    PadStart(digits, USD_DECIMALS)
  }

  function WholeDigits(value: int): (t: Text)
    ensures t != [] && AllDigits(t)
  {
    var padded := Padded(value);
    var whole := padded[..|padded| - USD_DECIMALS];
    if whole == [] then ['0' as int] else whole
  }

  /** All eighteen fraction digits. */
  function FractionDigits(value: int): (t: Text)
    ensures |t| == USD_DECIMALS && AllDigits(t)
  {
    var padded := Padded(value);
    padded[|padded| - USD_DECIMALS..]
  }

  function Signed(value: int, digits: Text): Text {
    if value < 0 then [MINUS] + digits else digits
  }

  function Dotted(whole: Text, fraction: Text): Text {
    if fraction == [] then whole else whole + ([DOT] + fraction)
  }

  /** `formatUnits(value, 18)`. */
  function FormatUnits(value: int): Text {
    Dotted(Signed(value, WholeDigits(value)), TrimZeros(FractionDigits(value)))
  }

  /** The first two fraction digits, when there is a fraction to show. */
  function CentDigits(fraction: Text): Text {
    PadEnd(fraction[..if |fraction| < 2 then |fraction| else 2], 2)
  }

  /** `usdInputString`; splitting the formatted text at its dot gives back the two parts. */
  function UsdInputString(value: int): Text {
    var fraction := TrimZeros(FractionDigits(value));
    Dotted(Signed(value, WholeDigits(value)), if fraction == [] then [] else CentDigits(fraction))
  }

  lemma DigitsAreValue(value: int)
    ensures Abs(value) == ReadNat(WholeDigits(value)) * Pow10(USD_DECIMALS) + ReadNat(FractionDigits(value))
  {
    hide Pow10, PrintNat, PadStart, Padded;
    var padded := Padded(value);
    var whole, fraction := padded[..|padded| - USD_DECIMALS], padded[|padded| - USD_DECIMALS..];
    assert padded == whole + fraction;
    ReadConcat(whole, fraction);
  }

  lemma WholeIsNumeral(value: int)
    ensures IsNumeral(WholeDigits(value))
  {
    var digits := PrintNat(Abs(value));
    PrintedIsNumeral(Abs(value));
    assert Abs(value) == 0 ==> |digits| == 1;
    var whole := Padded(value)[..|Padded(value)| - USD_DECIMALS];
    if whole != [] {
      assert Padded(value) == digits && whole[0] == digits[0];
    }
  }

  /** One dollar. */
  const WAD: int := 1_000_000_000_000_000_000

  /** The digits before and after the dot are those of the quotient and of the remainder. */
  lemma PartsAre(value: int)
    ensures PlaceValue(WholeDigits(value), 0, 0) == Abs(value) / WAD
    ensures ReadNat(FractionDigits(value)) == Abs(value) % WAD
  {
    Powers();
    hide Pow10, ReadNat, WholeDigits, FractionDigits, PlaceValue;
    DigitsAreValue(value);
    ReadBound(FractionDigits(value));
    WholeValue(WholeDigits(value));
    QuotientIs(Abs(value), Pow10(18), ReadNat(WholeDigits(value)), ReadNat(FractionDigits(value)));
  }

  /** The fraction digits that are shown: no zero at the end, the value of them all. */
  ghost predicate ShownFraction(fraction: Text, value: int) {
    && AllDigits(fraction) && |fraction| <= 18 && (fraction != [] ==> fraction[|fraction| - 1] != '0' as int)
    && ReadNat(fraction) * Pow10(18 - |fraction|) == Abs(value) % WAD
  }

  lemma TrimmedValue(digits: Text)
    requires AllDigits(digits)
    ensures var shown := TrimZeros(digits);
      && AllDigits(shown) && |shown| <= |digits|
      && ReadNat(digits) == ReadNat(shown) * Pow10(|digits| - |shown|)
      && (shown == [] <==> ReadNat(digits) == 0)
  {
    hide Pow10, ReadNat, TrimZeros;
    var shown := TrimZeros(digits);
    var k := |digits| - |shown|;
    assert digits == shown + Zeros(k);
    assert forall i | 0 <= i < |shown| :: shown[i] == digits[i];
    ReadZeros(k);
    ReadConcat(shown, Zeros(k));
    NothingIsZero();
    if shown != [] {
      LastDigitCounts(shown);
      ScaleUp(1, ReadNat(shown), Pow10(k));
    }
  }

  lemma NothingIsZero()
    ensures ReadNat([]) == 0
  {}

  lemma TrimmedIsShown(value: int)
    ensures ShownFraction(TrimZeros(FractionDigits(value)), value)
    ensures TrimZeros(FractionDigits(value)) == [] <==> Abs(value) % WAD == 0
  {
    hide Pow10, ReadNat, FractionDigits, WholeDigits, PlaceValue, Abs, TrimZeros;
    PartsAre(value);
    TrimmedValue(FractionDigits(value));
  }

  lemma LastDigitCounts(t: Text)
    requires t != [] && AllDigits(t) && t[|t| - 1] != '0' as int
    ensures ReadNat(t) > 0
  {}

  /** The text of an amount: its sign, the numeral of its dollars, and the digits after a dot that are not idle. */
  lemma FormatIsDecimal(value: int) returns (fraction: Text)
    ensures ShownFraction(fraction, value)
    ensures IsNumberText(FormatUnits(value), Number(value < 0, Abs(value) / WAD, fraction))
  {
    hide Pow10, WholeDigits, FractionDigits, PlaceValue, TrimZeros, ReadNat;
    fraction := TrimZeros(FractionDigits(value));
    TrimmedIsShown(value);
    WholeIsNumeral(value);
    PartsAre(value);
    SpelledOut(value, WholeDigits(value), fraction);
  }

  lemma SpelledOut(value: int, whole: Text, fraction: Text)
    requires IsNumeral(whole) && PlaceValue(whole, 0, 0) >= 0
    ensures IsNumberText(Dotted(Signed(value, whole), fraction), Number(value < 0, PlaceValue(whole, 0, 0), fraction))
  {
    hide PlaceValue, IsNumeral;
    var t := Dotted(Signed(value, whole), fraction);
    assert Ascii("-") == [MINUS] && Ascii("") == [] && Ascii(".") == [DOT];
    var end := if fraction == [] then [] else Ascii(".") + fraction;
    assert [] + (whole + end) == whole + end && whole + [] == whole;
    Assoc([MINUS], whole, end);
    assert Spells(t, Number(value < 0, PlaceValue(whole, 0, 0), fraction), whole);
  }

  /** The field shows the whole dollars, and the cents, rounded down, unless there is nothing after the dollars. */
  lemma InputStringIs(value: int) returns (cents: Text)
    ensures if Abs(value) % WAD == 0 then cents == []
      else |cents| == 2 && AllDigits(cents) && ReadNat(cents) == Abs(value) % WAD / CENT
    ensures IsNumberText(UsdInputString(value), Number(value < 0, Abs(value) / WAD, cents))
  {
    hide Pow10, WholeDigits, FractionDigits, PlaceValue, TrimZeros, ReadNat, CentDigits;
    var digits := FractionDigits(value);
    var fraction := TrimZeros(digits);
    TrimmedIsShown(value);
    WholeIsNumeral(value);
    PartsAre(value);
    if fraction == [] {
      cents := [];
    } else {
      CentDigitsAreFirstTwo(digits);
      FractionSplits(digits);
      Powers();
      cents := CentDigits(fraction);
    }
    SpelledOut(value, WholeDigits(value), cents);
  }

  /** Reading a printed amount back. */
  lemma ParseDotted(whole: Text, fraction: Text)
    requires whole != [] && AllDigits(whole) && AllDigits(fraction) && |fraction| <= USD_DECIMALS
    ensures UsdInputToBaseUnits(Dotted(whole, fraction)) ==
      Some(ReadNat(whole) * Pow10(USD_DECIMALS) + ReadNat(fraction) * Pow10(USD_DECIMALS - |fraction|))
    ensures Trim(Dotted(whole, fraction)) == Dotted(whole, fraction)
  {
    hide Pow10, ReadNat, UsdInputToBaseUnits, WellFormed, Trim;
    DottedParts(whole, fraction);
    assert Ascii(".") == [DOT];
    assert IsAmount(Dotted(whole, fraction), whole, fraction);
    AcceptedIff(Dotted(whole, fraction));
  }

  lemma DottedParts(whole: Text, fraction: Text)
    requires whole != [] && AllDigits(whole) && AllDigits(fraction) && |fraction| <= USD_DECIMALS
    ensures var t := Dotted(whole, fraction);
      WellFormed(t) && WholePart(t) == whole && FractionPart(t) == fraction && Trim(t) == t
  {
    var t := Dotted(whole, fraction);
    if fraction == [] {
      DigitRunStops(whole, []);
      assert whole + [] == whole;
    } else {
      var tail := [DOT] + fraction;
      DigitRunStops(whole, tail);
      Head(DOT, fraction);
      assert t[|whole|] == DOT;
      DropDot(whole, fraction);
      assert t[|t| - 1] == fraction[|fraction| - 1];
    }
    assert t[0] == whole[0];
  }

  lemma DropDot(whole: Text, fraction: Text)
    ensures (whole + ([DOT] + fraction))[|whole| + 1..] == fraction
  {}

  lemma NegativeIsRejected(value: int, digits: Text)
    requires value < 0
    ensures Trim(Signed(value, digits)) != [] && Trim(Signed(value, digits))[0] == MINUS
    ensures ParseUsdInput(Signed(value, digits)) == None
  {
    var t := Signed(value, digits);
    assert TrimStart(t) == t;
    TrimEndKeepsHead(t);
  }

  lemma {:induction false} TrimEndKeepsHead(t: Text)
    requires t != [] && !IsSpace(t[0])
    ensures TrimEnd(t) != [] && TrimEnd(t)[0] == t[0]
  {
    if IsSpace(t[|t| - 1]) { TrimEndKeepsHead(t[..|t| - 1]); }
  }

  lemma SignedDotted(value: int, whole: Text, fraction: Text)
    ensures Dotted(Signed(value, whole), fraction) == Signed(value, Dotted(whole, fraction))
  {
    if value < 0 && fraction != [] {
      Assoc([MINUS], whole, [DOT] + fraction);
    }
  }

  /** Parsing the full rendering gives the amount back, for exactly the amounts that are not negative. */
  lemma FormatRoundTrip(value: int)
    ensures ParseUsdInput(FormatUnits(value)) == if value >= 0 then Some(value) else None
  {
    hide UsdInputToBaseUnits, Trim, Pow10, WholeDigits, FractionDigits, TrimZeros;
    var whole, digits := WholeDigits(value), FractionDigits(value);
    var fraction := TrimZeros(digits);
    if value < 0 {
      SignedDotted(value, whole, fraction);
      NegativeIsRejected(value, Dotted(whole, fraction));
    } else {
      assert AllDigits(fraction) by { assert forall i | 0 <= i < |fraction| :: fraction[i] == digits[i]; }
      ParseDotted(whole, fraction);
      PadEndDigits(fraction, USD_DECIMALS);
      DigitsAreValue(value);
    }
  }

  /** The two digits shown are the first two of the eighteen. */
  lemma CentDigitsAreFirstTwo(digits: Text)
    requires |digits| == USD_DECIMALS && AllDigits(digits)
    ensures CentDigits(TrimZeros(digits)) == digits[..2]
  {
    var fraction := TrimZeros(digits);
    assert digits == fraction + Zeros(USD_DECIMALS - |fraction|);
    assert forall i | 0 <= i < |fraction| :: digits[i] == fraction[i];
    assert forall i | |fraction| <= i < USD_DECIMALS :: digits[i] == '0' as int;
  }

  lemma Powers()
    ensures Pow10(16) == CENT && Pow10(USD_DECIMALS) == 100 * CENT
  {
    assert Pow10(4) == 10_000;
    Pow10Add(4, 4);
    Pow10Add(8, 8);
    Pow10Add(2, 16);
  }

  lemma FractionSplits(digits: Text)
    requires |digits| == USD_DECIMALS && AllDigits(digits)
    ensures ReadNat(digits) % CENT == ReadNat(digits[2..])
    ensures ReadNat(digits) - ReadNat(digits) % CENT == ReadNat(digits[..2]) * Pow10(16)
  {
    Powers();
    assert digits == digits[..2] + digits[2..];
    ReadConcat(digits[..2], digits[2..]);
    ReadBound(digits[2..]);
    QuotientIs(ReadNat(digits), CENT, ReadNat(digits[..2]), ReadNat(digits[2..]));
  }

  lemma AddWholeDollars(dollars: int, rest: int)
    ensures (dollars * Pow10(USD_DECIMALS) + rest) % CENT == rest % CENT
  {
    hide Pow10;
    Powers();
    DivMod(rest, CENT);
    var all := dollars * Pow10(USD_DECIMALS) + rest;
    QuotientIs(all, CENT, 100 * dollars + rest / CENT, rest % CENT);
  }

  /** The text in a bid field reads back as the amount rounded down to a cent. */
  lemma InputStringRoundTrip(value: int)
    ensures ParseUsdInput(UsdInputString(value)) == if value >= 0 then Some(value - value % CENT) else None
  {
    hide Trim, UsdInputToBaseUnits, Pow10, CentDigits, WholeDigits, FractionDigits, TrimZeros;
    var whole, digits := WholeDigits(value), FractionDigits(value);
    var fraction := TrimZeros(digits);
    if value < 0 {
      var shown := if fraction == [] then [] else CentDigits(fraction);
      SignedDotted(value, whole, shown);
      NegativeIsRejected(value, Dotted(whole, shown));
    } else {
      DigitsAreValue(value);
      AddWholeDollars(ReadNat(whole), ReadNat(digits));
      FractionSplits(digits);
      if fraction == [] {
        ReadZeros(USD_DECIMALS);
        assert digits == Zeros(USD_DECIMALS);
        ParseDotted(whole, []);
      } else {
        CentDigitsAreFirstTwo(digits);
        ParseDotted(whole, digits[..2]);
      }
    }
  }

  // ----- Headroom -----

  /** `withPurchaseHeadroom`. */
  function WithPurchaseHeadroom(quoted: int): int {
    quoted + CeilMulDiv(quoted, PURCHASE_SLIPPAGE_BPS, BPS).value
  }

  /** `suggestedBidUsd`. */
  function SuggestedBidUsd(minimum: int): int {
    if minimum <= 0 then minimum
    else
      var buffered := minimum + CeilMulDiv(minimum, BID_HEADROOM_BPS, BPS).value;
      CeilMulDiv(buffered, 1, CENT).value * CENT
  }

  /** `bidWithinHeadroom`. */
  predicate BidWithinHeadroom(bid: int, minimum: int) {
    minimum <= bid < SuggestedBidUsd(minimum)
  }

  /** `amount` is at least half a percent above `base`. */
  predicate HalfPercentAbove(amount: int, base: int) {
    amount * 10_000 >= base * 10_050
  }

  /** The payment is the least whole amount at least 0.5% above the quote, so it covers every requote up to that. */
  lemma HeadroomIsLeast(quoted: int)
    requires quoted >= 0
    ensures HalfPercentAbove(WithPurchaseHeadroom(quoted), quoted)
    ensures !HalfPercentAbove(WithPurchaseHeadroom(quoted) - 1, quoted)
    ensures forall requote: int | requote * 10_000 <= quoted * 10_050 :: requote <= WithPurchaseHeadroom(quoted)
  {
    CeilMulDivIsCeilingIff(quoted, PURCHASE_SLIPPAGE_BPS, BPS);
  }

  /** A smaller payment covers every whole requote in the band unless the quote is a multiple of 200. */
  lemma HeadroomIsTightIff(quoted: int)
    requires quoted >= 0
    ensures WithPurchaseHeadroom(quoted) * 10_000 <= quoted * 10_050 <==> quoted % 200 == 0
  {
    CeilMulDivIsCeilingIff(quoted, PURCHASE_SLIPPAGE_BPS, BPS);
  }

  /** The suggestion is the least whole-cent amount at least 0.5% above a positive minimum. */
  lemma SuggestionIsLeast(minimum: int)
    requires minimum > 0
    ensures var suggested := SuggestedBidUsd(minimum);
      && suggested % CENT == 0 && HalfPercentAbove(suggested, minimum)
      && forall amount: int | amount % CENT == 0 && HalfPercentAbove(amount, minimum) :: suggested <= amount
  {
    var buffered := minimum + CeilMulDiv(minimum, BID_HEADROOM_BPS, BPS).value;
    CeilMulDivIsCeilingIff(minimum, BID_HEADROOM_BPS, BPS);
    CeilMulDivIsCeilingIff(buffered, 1, CENT);
    var cents := CeilMulDiv(buffered, 1, CENT).value;
    QuotientIs(cents * CENT, CENT, cents, 0);
    forall amount: int | amount % CENT == 0 && HalfPercentAbove(amount, minimum)
      ensures cents * CENT <= amount
    {
      DivMod(amount, CENT);
      assert amount >= buffered;
      assert amount / CENT > cents - 1;
    }
  }

  /** A prefilled suggestion survives the text field exactly, for every minimum that is not negative. */
  lemma SuggestionSurvivesField(minimum: int)
    ensures ParseUsdInput(UsdInputString(SuggestedBidUsd(minimum))) ==
      if minimum >= 0 then Some(SuggestedBidUsd(minimum)) else None
  {
    hide ParseUsdInput, UsdInputString, CeilMulDiv;
    InputStringRoundTrip(SuggestedBidUsd(minimum));
    if minimum > 0 { SuggestionIsLeast(minimum); }
  }

  /** It is never below the minimum and never in the warning band. */
  lemma SuggestionIsSafe(minimum: int)
    ensures SuggestedBidUsd(minimum) >= minimum
    ensures !BidWithinHeadroom(SuggestedBidUsd(minimum), minimum)
  {
    if minimum > 0 { SuggestionIsLeast(minimum); }
  }

  /** For whole-cent bids the warning band is exactly the bids less than 0.5% above the minimum. */
  lemma WarningBandIff(bid: int, minimum: int)
    requires minimum > 0 && bid % CENT == 0 && bid >= minimum
    ensures BidWithinHeadroom(bid, minimum) <==> !HalfPercentAbove(bid, minimum)
  {
    SuggestionIsLeast(minimum);
  }

  /** For any bid and minimum: the band is what reaches a positive minimum but no whole cent half a percent above it. */
  lemma WarningBandExactly(bid: int, minimum: int)
    ensures BidWithinHeadroom(bid, minimum) <==>
      && minimum > 0 && bid >= minimum
      && forall amount: int | amount % CENT == 0 && HalfPercentAbove(amount, minimum) :: bid < amount
  {
    if minimum > 0 { SuggestionIsLeast(minimum); }
  }
}
