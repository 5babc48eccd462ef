/** The redaction applied to every error report before it leaves the device. */
module Telemetry {
  import opened Texts
  import opened Json

  // ----- Addresses in text -----

  predicate IsHex(u: CodeUnit) {
    '0' as int <= u <= '9' as int || 'a' as int <= u <= 'f' as int || 'A' as int <= u <= 'F' as int
  }

  /** `0x` and forty hex digits start at `i`. */
  predicate AddressAt(t: Text, i: nat) {
    && i + 42 <= |t|
    && t[i] == '0' as int && t[i + 1] == 'x' as int
    && forall j | i + 2 <= j < i + 42 :: IsHex(t[j])
  }

  /** A hex digit, of either case. */
  predicate IsHexDigit(u: CodeUnit) {
    u in Ascii("0123456789") || u in Ascii("abcdef") || u in Ascii("ABCDEF")
  }

  lemma IsHexIff(u: CodeUnit)
    ensures IsHex(u) <==> IsHexDigit(u)
  {
    var digits, lower, upper := Ascii("0123456789"), Ascii("abcdef"), Ascii("ABCDEF");
    if '0' as int <= u <= '9' as int { assert digits[u - '0' as int] == u; }
    if 'a' as int <= u <= 'f' as int { assert lower[u - 'a' as int] == u; }
    if 'A' as int <= u <= 'F' as int { assert upper[u - 'A' as int] == u; }
  }

  /** An address is `0x` and forty hex digits of either case. */
  lemma AddressAtIff(t: Text, i: nat)
    ensures AddressAt(t, i) <==>
      i + 42 <= |t| && t[i..i + 2] == Ascii("0x") && forall j | i + 2 <= j < i + 42 :: IsHexDigit(t[j])
  {
    if i + 42 <= |t| {
      hide IsHex, HexDigit;
      assert Ascii("0x") == ['0' as int, 'x' as int];
      assert t[i..i + 2] == [t[i], t[i + 1]];
      forall j | i + 2 <= j < i + 42
        ensures IsHex(t[j]) <==> IsHexDigit(t[j])
      {
        IsHexIff(t[j]);
      }
    }
  }

  ghost predicate HasAddress(t: Text) {
    exists i: nat :: AddressAt(t, i)
  }

  const MARK: Text := Ascii("[Address]")

  /** `text.replaceAll(/0x[a-fA-F0-9]{40}/g, '[Address]')`: the leftmost match first. */
  function ReplaceAddresses(t: Text): Text
    decreases |t|
  {
    if t == [] then []
    else if AddressAt(t, 0) then MARK + ReplaceAddresses(t[42..])
    else [t[0]] + ReplaceAddresses(t[1..])
  }

  lemma MarkFirst(t: Text)
    ensures AddressAt(t, 0) ==> ReplaceAddresses(t) != [] && ReplaceAddresses(t)[0] == LBRACKET
  {}

  /** Up to the first opening bracket, the replaced text is the original text. */
  lemma {:induction false} ReplacePrefix(t: Text, n: nat)
    requires n <= |ReplaceAddresses(t)|
    requires forall i | 0 <= i < n :: ReplaceAddresses(t)[i] != LBRACKET
    ensures n <= |t| && t[..n] == ReplaceAddresses(t)[..n]
    decreases |t|
  {
    if n > 0 {
      var r := ReplaceAddresses(t);
      MarkFirst(t);
      if !AddressAt(t, 0) {
        assert r[1..] == ReplaceAddresses(t[1..]);
        ReplacePrefix(t[1..], n - 1);
        assert t[..n] == [t[0]] + t[1..][..n - 1];
        assert r[..n] == [r[0]] + r[1..][..n - 1];
      }
    }
  }

  lemma AddressHasNoBracket(t: Text, i: nat, j: nat)
    requires AddressAt(t, i) && i <= j < i + 42
    ensures t[j] != LBRACKET && t[j] != RBRACKET
  {}

  /** Nothing that starts inside the mark is an address. */
  lemma NoAddressInMark(rest: Text, i: nat)
    requires i < |MARK|
    ensures !AddressAt(MARK + rest, i)
  {
    assert (MARK + rest)[8] == RBRACKET;
    if AddressAt(MARK + rest, i) {
      AddressHasNoBracket(MARK + rest, i, 8);
    }
  }

  lemma AddressShift(a: Text, t: Text, i: nat)
    requires i >= |a|
    ensures AddressAt(a + t, i) <==> AddressAt(t, i - |a|)
  {
    if i + 42 <= |a + t| {
      assert forall j | i <= j < i + 42 :: (a + t)[j] == t[j - |a|];
      assert forall j | i - |a| <= j < i - |a| + 42 :: t[j] == (a + t)[j + |a|];
    }
  }

  lemma LeadingAddressWasThere(t: Text)
    requires AddressAt(ReplaceAddresses(t), 0)
    ensures AddressAt(t, 0)
  {
    var r := ReplaceAddresses(t);
    forall j | 0 <= j < 42
      ensures r[j] != LBRACKET
    {
      AddressHasNoBracket(r, 0, j);
    }
    ReplacePrefix(t, 42);
    assert forall j | 0 <= j < 42 :: t[j] == t[..42][j] && r[j] == r[..42][j];
  }

  /** Replacement is complete, and creates no new match. */
  lemma {:induction false} ReplaceLeavesNone(t: Text, i: nat)
    ensures !AddressAt(ReplaceAddresses(t), i)
    decreases |t|
  {
    var r := ReplaceAddresses(t);
    if t == [] {
    } else if AddressAt(t, 0) {
      var tail := ReplaceAddresses(t[42..]);
      if i < |MARK| {
        NoAddressInMark(tail, i);
      } else {
        AddressShift(MARK, tail, i);
        ReplaceLeavesNone(t[42..], i - |MARK|);
      }
    } else if i > 0 {
      AddressShift([t[0]], ReplaceAddresses(t[1..]), i);
      ReplaceLeavesNone(t[1..], i - 1);
    } else if AddressAt(r, 0) {
      LeadingAddressWasThere(t);
    }
  }

  /** Text without an address is untouched. */
  lemma {:induction false} ReplaceKeeps(t: Text)
    requires !HasAddress(t)
    ensures ReplaceAddresses(t) == t
    decreases |t|
  {
    if t != [] {
      Uncons(t);
      forall i: nat
        ensures !AddressAt(t[1..], i)
      {
        AddressShift([t[0]], t[1..], i + 1);
      }
      assert !AddressAt(t, 0);
      ReplaceKeeps(t[1..]);
    }
  }

  /**
   * Which characters go: after text in which no address starts, a first address becomes the mark
   * and the rest is treated alike. With ReplaceKeeps this fixes the result for every text.
   */
  lemma {:induction false} ReplaceFirst(before: Text, address: Text, rest: Text)
    requires |address| == 42 && AddressAt(address + rest, 0)
    requires forall i: nat | i < |before| :: !AddressAt(before + (address + rest), i)
    ensures ReplaceAddresses(before + (address + rest)) == before + (Ascii("[Address]") + ReplaceAddresses(rest))
    decreases |before|
  {
    var t := before + (address + rest);
    if before == [] {
      assert t == address + rest;
      Rest(address, rest);
    } else {
      Uncons(before);
      Assoc([before[0]], before[1..], address + rest);
      Head(before[0], before[1..] + (address + rest));
      forall i: nat | i < |before| - 1
        ensures !AddressAt(before[1..] + (address + rest), i)
      {
        AddressShift([before[0]], before[1..] + (address + rest), i + 1);
      }
      assert !AddressAt(t, 0);
      ReplaceFirst(before[1..], address, rest);
      Assoc([before[0]], before[1..], MARK + ReplaceAddresses(rest));
    }
  }

  // ----- Keys -----

  const SENSITIVE: seq<Text> := [
    Ascii("signature"), Ascii("address"), Ascii("wallet"), Ascii("certificate"), Ascii("delivery"),
    Ascii("recipient"), Ascii("email"), Ascii("name"), Ascii("form"), Ascii("payload")
  ]

  predicate WordAt(key: Text, word: Text, i: nat) {
    i + |word| <= |key| && forall j | 0 <= j < |word| :: Fold(key[i + j]) == word[j]
  }

  predicate Mentions(key: Text, word: Text) {
    exists i | 0 <= i <= |key| :: WordAt(key, word, i)
  }

  /** `SENSITIVE_KEYS.test(key)`. */
  predicate IsSensitive(key: Text) {
    exists k | 0 <= k < |SENSITIVE| :: Mentions(key, SENSITIVE[k])
  }

  /** The key holds one of these words, in any case. */
  ghost predicate HoldsWord(key: Text, word: Text) {
    exists before, found, after :: key == before + (found + after) && Lower(found) == word
  }

  lemma MentionsIff(key: Text, word: Text)
    ensures Mentions(key, word) <==> HoldsWord(key, word)
  {
    if Mentions(key, word) {
      var i :| 0 <= i <= |key| && WordAt(key, word, i);
      var n := i + |word|;
      assert Lower(key[i..n]) == word;
      assert key == key[..i] + (key[i..n] + key[n..]);
    }
    if HoldsWord(key, word) {
      var before, found, after :| key == before + (found + after) && Lower(found) == word;
      assert |found| == |word|;
      assert forall j | 0 <= j < |word| :: key[|before| + j] == found[j] && Lower(found)[j] == word[j];
      assert WordAt(key, word, |before|);
    }
  }

  /** A key is sensitive exactly if it holds one of ten words, in any case. */
  lemma IsSensitiveIff(key: Text)
    ensures IsSensitive(key) <==>
      || HoldsWord(key, Ascii("signature")) || HoldsWord(key, Ascii("address")) || HoldsWord(key, Ascii("wallet"))
      || HoldsWord(key, Ascii("certificate")) || HoldsWord(key, Ascii("delivery"))
      || HoldsWord(key, Ascii("recipient")) || HoldsWord(key, Ascii("email")) || HoldsWord(key, Ascii("name"))
      || HoldsWord(key, Ascii("form")) || HoldsWord(key, Ascii("payload"))
  {
    hide Mentions, HoldsWord;
    forall k | 0 <= k < |SENSITIVE|
      ensures Mentions(key, SENSITIVE[k]) <==> HoldsWord(key, SENSITIVE[k])
    {
      MentionsIff(key, SENSITIVE[k]);
    }
    assert |SENSITIVE| == 10;
    assert IsSensitive(key) <==>
      || Mentions(key, SENSITIVE[0]) || Mentions(key, SENSITIVE[1]) || Mentions(key, SENSITIVE[2])
      || Mentions(key, SENSITIVE[3]) || Mentions(key, SENSITIVE[4]) || Mentions(key, SENSITIVE[5])
      || Mentions(key, SENSITIVE[6]) || Mentions(key, SENSITIVE[7]) || Mentions(key, SENSITIVE[8])
      || Mentions(key, SENSITIVE[9]);
  }

  lemma WordInKey(before: Text, found: Text, after: Text, word: Text)
    requires Lower(found) == word
    ensures HoldsWord(before + (found + after), word)
  {}

  /** Case does not matter: a word in capitals counts. */
  lemma CapitalsCount()
    ensures IsSensitive(Ascii("customerEMAIL")) && IsSensitive(Ascii("WalletId"))
  {
    var email, id := Ascii("customerEMAIL"), Ascii("WalletId");
    assert email == Ascii("customer") + (Ascii("EMAIL") + []);
    assert Lower(Ascii("EMAIL")) == Ascii("email");
    WordInKey(Ascii("customer"), Ascii("EMAIL"), [], Ascii("email"));
    IsSensitiveIff(email);
    assert id == [] + (Ascii("Wallet") + Ascii("Id"));
    assert Lower(Ascii("Wallet")) == Ascii("wallet");
    WordInKey([], Ascii("Wallet"), Ascii("Id"), Ascii("wallet"));
    IsSensitiveIff(id);
  }

  const FILTERED: Value := Str(Ascii("[Filtered]"))

  // ----- Trees -----

  /** `scrub(value, key)`. */
  function Scrub(v: Value, key: Text): Value
    decreases v, 1
  {
    if IsSensitive(key) then FILTERED
    else
      match v
      case Str(t) => Str(ReplaceAddresses(t))
      case Arr(items) => Arr(ScrubItems(items))
      case Obj(es) => Obj(ScrubMembers(es))
      case _ => v
  }

  function ScrubItems(items: seq<Value>): (r: seq<Value>)
    ensures |r| == |items| && forall i | 0 <= i < |items| :: r[i] == Scrub(items[i], [])
    decreases items, 0
  {
    seq(|items|, i requires 0 <= i < |items| => Scrub(items[i], []))
  }

  function ScrubMembers(es: seq<Entry>): (r: seq<Entry>)
    ensures |r| == |es| && forall i | 0 <= i < |es| :: r[i] == Entry(es[i].key, Scrub(es[i].value, es[i].key))
    decreases es, 0
  {
    seq(|es|, i requires 0 <= i < |es| => Entry(es[i].key, Scrub(es[i].value, es[i].key)))
  }

  /** No address in any string, and nothing but the filter mark under a sensitive key. */
  ghost predicate Clean(v: Value, key: Text)
    decreases v
  {
    if IsSensitive(key) then v == FILTERED
    else
      match v
      case Str(t) => !HasAddress(t)
      case Arr(items) => forall i | 0 <= i < |items| :: Clean(items[i], [])
      case Obj(es) => forall i | 0 <= i < |es| :: Clean(es[i].value, es[i].key)
      case _ => true
  }

  /** The same tree apart from redaction: filtered whole, or the same keys and leaves, with addresses replaced. */
  ghost predicate KeepsShape(v: Value, w: Value, key: Text)
    decreases v
  {
    if IsSensitive(key) then w == Str(Ascii("[Filtered]"))
    else
      match (v, w)
      case (Str(t), Str(u)) => u == ReplaceAddresses(t)
      case (Arr(a), Arr(b)) => |a| == |b| && forall i | 0 <= i < |a| :: KeepsShape(a[i], b[i], [])
      case (Obj(a), Obj(b)) =>
        |a| == |b| && forall i | 0 <= i < |a| ::
          a[i].key == b[i].key && KeepsShape(a[i].value, b[i].value, a[i].key)
      case (Str(_), _) => false
      case (Arr(_), _) => false
      case (Obj(_), _) => false
      case _ => v == w
  }

  /** Scrubbing cleans every tree and keeps its shape. */
  lemma {:induction false} ScrubCleans(v: Value, key: Text)
    ensures Clean(Scrub(v, key), key)
    ensures KeepsShape(v, Scrub(v, key), key)
    decreases v
  {
    if !IsSensitive(key) {
      match v
      case Str(t) =>
        forall i: nat
          ensures !AddressAt(ReplaceAddresses(t), i)
        {
          ReplaceLeavesNone(t, i);
        }
      case Arr(items) => forall i | 0 <= i < |items| { ScrubCleans(items[i], []); }
      case Obj(es) => forall i | 0 <= i < |es| { ScrubCleans(es[i].value, es[i].key); }
      case _ =>
    }
  }

  /** Clean trees are exactly the ones scrubbing leaves alone. */
  lemma {:induction false} CleanIffUnchanged(v: Value, key: Text)
    ensures Clean(v, key) <==> Scrub(v, key) == v
    decreases v
  {
    ScrubCleans(v, key);
    if Clean(v, key) && !IsSensitive(key) {
      match v
      case Str(t) => ReplaceKeeps(t);
      case Arr(items) =>
        forall i | 0 <= i < |items| { CleanIffUnchanged(items[i], []); }
        assert ScrubItems(items) == items;
      case Obj(es) =>
        forall i | 0 <= i < |es| { CleanIffUnchanged(es[i].value, es[i].key); }
        assert ScrubMembers(es) == es;
      case _ =>
    }
  }

  lemma ScrubIdempotent(v: Value, key: Text)
    ensures Scrub(Scrub(v, key), key) == Scrub(v, key)
  {
    ScrubCleans(v, key);
    CleanIffUnchanged(Scrub(v, key), key);
  }

  // ----- Property names -----

  /** No address in any string or property name. */
  ghost predicate NoAddressAnywhere(v: Value) {
    match v
    case Str(t) => !HasAddress(t)
    case Arr(items) => forall i | 0 <= i < |items| :: NoAddressAnywhere(items[i])
    case Obj(es) => forall i | 0 <= i < |es| :: !HasAddress(es[i].key) && NoAddressAnywhere(es[i].value)
    case _ => true
  }

  /** No property name holds an address, apart from names below a sensitive key. */
  ghost predicate NamesClean(v: Value, key: Text) {
    !IsSensitive(key) ==>
      match v
      case Arr(items) => forall i | 0 <= i < |items| :: NamesClean(items[i], [])
      case Obj(es) => forall i | 0 <= i < |es| :: !HasAddress(es[i].key) && NamesClean(es[i].value, es[i].key)
      case _ => true
  }

  /** The scrubbed tree is free of addresses, names included, exactly if no name that is kept held one. */
  lemma {:induction false} NoAddressIff(v: Value, key: Text)
    ensures NoAddressAnywhere(Scrub(v, key)) <==> NamesClean(v, key)
    decreases v
  {
    ScrubCleans(v, key);
    if !IsSensitive(key) {
      match v
      case Arr(items) => forall i | 0 <= i < |items| { NoAddressIff(items[i], []); }
      case Obj(es) =>
        var scrubbed := ScrubMembers(es);
        forall i | 0 <= i < |es|
          ensures NoAddressAnywhere(scrubbed[i].value) <==> NamesClean(es[i].value, es[i].key)
        {
          NoAddressIff(es[i].value, es[i].key);
        }
        forall i | 0 <= i < |es|
          ensures scrubbed[i].key == es[i].key
        {}
      case _ =>
    }
  }

  lemma WordsStartWithLetters(k: nat)
    requires k < |SENSITIVE|
    ensures SENSITIVE[k] != [] && SENSITIVE[k][0] != '0' as int && SENSITIVE[k][0] != 'x' as int
  {}

  /** No sensitive word is in a key of zeros and the letter x. */
  lemma NotSensitive(key: Text)
    requires forall i | 0 <= i < |key| :: key[i] == '0' as int || key[i] == 'x' as int
    ensures !IsSensitive(key)
  {
    hide Mentions;
    forall k | 0 <= k < |SENSITIVE|
      ensures !Mentions(key, SENSITIVE[k])
    {
      WordsStartWithLetters(k);
      NotMentioned(key, SENSITIVE[k]);
    }
  }

  lemma NotMentioned(key: Text, word: Text)
    requires forall i | 0 <= i < |key| :: key[i] == '0' as int || key[i] == 'x' as int
    requires word != [] && word[0] != '0' as int && word[0] != 'x' as int
    ensures !Mentions(key, word)
  {
    forall i | 0 <= i <= |key|
      ensures !WordAt(key, word, i)
    {
      if i + |word| <= |key| {
        assert Fold(key[i + 0]) != word[0];
      }
    }
  }

  /** An object whose one property is named by an address keeps it. */
  lemma AddressAsNameStays()
    ensures var name := Ascii("0x") + Zeros(40);
      var v := Obj([Entry(name, Null)]);
      HasAddress(name) && Scrub(v, []) == v && !NoAddressAnywhere(Scrub(v, []))
  {
    var name := Ascii("0x") + Zeros(40);
    var v := Obj([Entry(name, Null)]);
    assert AddressAt(name, 0);
    NotSensitive(name);
    NotSensitive([]);
    assert ScrubMembers([Entry(name, Null)]) == [Entry(name, Null)];
    NoAddressIff(v, []);
    assert !NamesClean(v, []) by { assert v.entries[0].key == name; }
  }
}
