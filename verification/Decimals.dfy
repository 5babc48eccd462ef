/** Decimal text for naturals and integers: printing, reading, and that each undoes the other. */
module Decimals {
  import opened Texts

  function Pow10(n: nat): (p: nat)
    ensures p >= 1
  {
    if n == 0 then 1 else 10 * Pow10(n - 1)
  }

  lemma {:induction false} Pow10Add(a: nat, b: nat)
    ensures Pow10(a + b) == Pow10(a) * Pow10(b)
  {
    if a > 0 {
      Pow10Add(a - 1, b);
      assert Pow10(a + b) == 10 * (Pow10(a - 1) * Pow10(b));
    }
  }

  predicate IsDigit(u: CodeUnit) { '0' as int <= u <= '9' as int }

  predicate AllDigits(t: Text) { forall i | 0 <= i < |t| :: IsDigit(t[i]) }

  function DigitAt(d: nat): CodeUnit
    requires d < 10
  {
    '0' as int + d
  }

  /** `value.toString()` for a non-negative integer. */
  function PrintNat(n: nat): (t: Text)
    ensures t != [] && AllDigits(t)
  {
    if n < 10 then [DigitAt(n)] else PrintNat(n / 10) + [DigitAt(n % 10)]
  }

  /** The number a run of digits denotes; leading zeros are allowed, no digits is zero. */
  function ReadNat(t: Text): nat
    requires AllDigits(t)
  {
    if t == [] then 0
    else 10 * ReadNat(t[..|t| - 1]) + (t[|t| - 1] - '0' as int)
  }

  lemma {:induction false} ReadPrintNat(n: nat)
    ensures ReadNat(PrintNat(n)) == n
  {
    if n >= 10 {
      ReadPrintNat(n / 10);
      var t := PrintNat(n);
      assert t[..|t| - 1] == PrintNat(n / 10);
    }
  }

  lemma Distribute(a: int, p: int, b: int)
    ensures 10 * (a * p + b) == a * (10 * p) + 10 * b
  {}

  lemma {:induction false} ReadConcat(a: Text, b: Text)
    requires AllDigits(a) && AllDigits(b)
    ensures AllDigits(a + b)
    ensures ReadNat(a + b) == ReadNat(a) * Pow10(|b|) + ReadNat(b)
    decreases |b|
  {
    if b == [] {
      assert a + b == a;
    } else {
      var b' := b[..|b| - 1];
      ReadConcat(a, b');
      assert (a + b)[..|a + b| - 1] == a + b';
      Distribute(ReadNat(a), Pow10(|b'|), ReadNat(b'));
    }
  }

  lemma {:induction false} ReadZeros(n: nat)
    ensures AllDigits(Zeros(n)) && ReadNat(Zeros(n)) == 0
  {
    if n > 0 {
      ReadZeros(n - 1);
      assert Zeros(n)[..n - 1] == Zeros(n - 1);
    }
  }

  lemma {:induction false} ReadBound(t: Text)
    requires AllDigits(t)
    ensures ReadNat(t) < Pow10(|t|)
  {
    if t != [] {
      ReadBound(t[..|t| - 1]);
    }
  }

  /** `value.toString()` for a bigint. */
  function PrintInt(n: int): Text {
    if n < 0 then [MINUS] + PrintNat(-n) else PrintNat(n)
  }

  /** The integers `BigInt(text)` accepts in plain decimal form. */
  function ReadInt(t: Text): Option<int> {
    if t != [] && AllDigits(t) then Some(ReadNat(t))
    else if |t| > 1 && t[0] == MINUS && AllDigits(t[1..]) then
      var magnitude: int := ReadNat(t[1..]);
      Some(-magnitude)
    else None
  }

  lemma ReadPrintInt(n: int)
    ensures ReadInt(PrintInt(n)) == Some(n)
  {
    if n < 0 {
      ReadPrintNat(-n);
      var t := PrintInt(n);
      assert t[1..] == PrintNat(-n);
      assert !IsDigit(t[0]);
    } else {
      ReadPrintNat(n);
    }
  }

  /** How many digits `t` starts with. */
  function DigitRun(t: Text): (n: nat)
    ensures n <= |t| && AllDigits(t[..n])
    ensures n < |t| ==> !IsDigit(t[n])
  {
    if t == [] || !IsDigit(t[0]) then 0 else 1 + DigitRun(t[1..])
  }

  lemma {:induction false} DigitRunStops(digits: Text, rest: Text)
    requires AllDigits(digits)
    requires rest != [] ==> !IsDigit(rest[0])
    ensures DigitRun(digits + rest) == |digits|
    ensures (digits + rest)[..|digits|] == digits && (digits + rest)[|digits|..] == rest
  {
    if digits == [] {
      assert digits + rest == rest;
    } else {
      assert (digits + rest)[1..] == digits[1..] + rest;
      DigitRunStops(digits[1..], rest);
    }
  }
}
