/** JavaScript strings as sequences of UTF-16 code units, and the option and result types. */
module Texts {
  datatype Option<+T> = None | Some(value: T)

  datatype Result<+T, +E> = Ok(value: T) | Err(error: E)

  /** Every value, or the first error. */
  function AllOk<T, E>(results: seq<Result<T, E>>): (r: Result<seq<T>, E>)
    ensures r.Ok? <==> forall i | 0 <= i < |results| :: results[i].Ok?
    ensures r.Ok? ==> |r.value| == |results| && forall i | 0 <= i < |results| :: r.value[i] == results[i].value
    ensures r.Err? ==> exists k | 0 <= k < |results| ::
      results[k].Err? && results[k].error == r.error && forall i | 0 <= i < k :: results[i].Ok?
  {
    if results == [] then Ok([])
    else match results[0]
      case Err(e) => Err(e)
      case Ok(first) =>
        match AllOk(results[1..])
        case Err(e) => Err(e)
        case Ok(others) => Ok([first] + others)
  }

  /** Every value, if there are all of them. */
  function AllSome<T>(options: seq<Option<T>>): (r: Option<seq<T>>)
    ensures r.Some? <==> forall i | 0 <= i < |options| :: options[i].Some?
    ensures r.Some? ==> |r.value| == |options| && forall i | 0 <= i < |options| :: r.value[i] == options[i].value
  {
    if options == [] then Some([])
    else match options[0]
      case None => None
      case Some(first) =>
        match AllSome(options[1..])
        case None => None
        case Some(others) => Some([first] + others)
  }

  ghost predicate NoDuplicates<T(!new)>(s: seq<T>) {
    forall i, j | 0 <= i < j < |s| :: s[i] != s[j]
  }

  type CodeUnit = u: int | 0 <= u < 0x1_0000

  type Text = seq<CodeUnit>

  const SPACE: CodeUnit := ' ' as int
  const QUOTE: CodeUnit := '\"' as int
  const BACKSLASH: CodeUnit := '\\' as int
  const COMMA: CodeUnit := ',' as int
  const COLON: CodeUnit := ':' as int
  const DOT: CodeUnit := '.' as int
  const MINUS: CodeUnit := '-' as int
  const LBRACKET: CodeUnit := '[' as int
  const RBRACKET: CodeUnit := ']' as int
  const LBRACE: CodeUnit := '{' as int
  const RBRACE: CodeUnit := '}' as int

  /** The code units of a literal; meant for ASCII literals only. */
  function Ascii(s: string): (t: Text)
    requires forall i | 0 <= i < |s| :: s[i] as int < 128
  {
    seq(|s|, i requires 0 <= i < |s| => s[i] as int)
  }

  /** `\s` in a regular expression, and equally what `trim` removes. */
  predicate IsSpace(u: CodeUnit) {
    9 <= u <= 13 || u == 0x20 || u == 0xA0 || u == 0x1680 || 0x2000 <= u <= 0x200A ||
    u == 0x2028 || u == 0x2029 || u == 0x202F || u == 0x205F || u == 0x3000 || u == 0xFEFF
  }

  /** The order of section 3.2.3 of RFC 8785: lexicographic on UTF-16 code units. */
  predicate CodeUnitOrder(a: Text, b: Text)
    decreases |a|
  {
    a == [] || (b != [] && (a[0] < b[0] || (a[0] == b[0] && CodeUnitOrder(a[1..], b[1..]))))
  }

  /** The white space and line terminators of sections 12.2 and 12.3 of ECMA-262, one by one. */
  lemma SpacesAre(u: CodeUnit)
    ensures IsSpace(u) <==> u in [
      9, 10, 11, 12, 13, 32, 160, 5760, 8192, 8193, 8194, 8195, 8196, 8197, 8198, 8199, 8200, 8201, 8202,
      8232, 8233, 8239, 8287, 12288, 65279]
  {}

  /** Where two texts part the smaller unit decides, and a text comes before any it begins. */
  lemma {:induction false} CodeUnitOrderIff(a: Text, b: Text)
    ensures CodeUnitOrder(a, b) <==> exists k: nat :: PartAt(a, b, k) && (k == |a| || (k < |b| && a[k] < b[k]))
  {
    if a == [] {
      assert PartAt(a, b, 0);
    } else if b != [] {
      CodeUnitOrderIff(a[1..], b[1..]);
      if a[0] == b[0] {
        forall k: nat
          ensures PartAt(a, b, k + 1) <==> PartAt(a[1..], b[1..], k)
        {
          if k < |a| && k < |b| {
            assert forall i | 0 <= i < k :: a[1..][i] == a[i + 1] && b[1..][i] == b[i + 1];
            assert forall i | 1 <= i < k + 1 :: a[i] == a[1..][i - 1] && b[i] == b[1..][i - 1];
          }
        }
        if k: nat :| PartAt(a[1..], b[1..], k) && (k == |a| - 1 || (k < |b| - 1 && a[1..][k] < b[1..][k])) {
          assert PartAt(a, b, k + 1);
        }
        if k: nat :| PartAt(a, b, k) && (k == |a| || (k < |b| && a[k] < b[k])) {
          assert PartAt(a[1..], b[1..], k - 1);
        }
      } else {
        assert PartAt(a, b, 0);
      }
    }
  }

  /** The texts are equal up to `k`. */
  predicate PartAt(a: Text, b: Text, k: nat) {
    k <= |a| && k <= |b| && forall i | 0 <= i < k :: a[i] == b[i]
  }

  /** Lower case, as far as ASCII letters go. */
  function Fold(u: CodeUnit): CodeUnit {
    if 'A' as int <= u <= 'Z' as int then u + 32 else u
  }

  function Lower(t: Text): Text {
    seq(|t|, i requires 0 <= i < |t| => Fold(t[i]))
  }

  lemma AlphabetLowers()
    ensures Lower(Ascii("ABCDEFGHIJKLMNOPQRSTUVWXYZ")) == Ascii("abcdefghijklmnopqrstuvwxyz")
    ensures Lower(Ascii("abcxyz019-_@[`{")) == Ascii("abcxyz019-_@[`{")
  {}

  /** `parts.join(separator)` for a one-unit separator. */
  function Join(parts: seq<Text>, separator: CodeUnit): Text {
    if parts == [] then []
    else if |parts| == 1 then parts[0]
    else parts[0] + ([separator] + Join(parts[1..], separator))
  }

  /** `text.padEnd(width, '0')`. */
  function PadEnd(t: Text, width: nat): Text {
    if |t| >= width then t else t + Zeros(width - |t|)
  }

  /** `text.padStart(width, '0')`. */
  function PadStart(t: Text, width: nat): Text {
    if |t| >= width then t else Zeros(width - |t|) + t
  }

  function Zeros(n: nat): Text {
    seq(n, _ => '0' as int)
  }

  lemma JoinStep(parts: seq<Text>, k: nat, separator: CodeUnit)
    requires k < |parts|
    ensures Join(parts[k..], separator) ==
      if k == |parts| - 1 then parts[k] else parts[k] + ([separator] + Join(parts[k + 1..], separator))
  {
    if k < |parts| - 1 {
      assert parts[k..][1..] == parts[k + 1..];
    }
  }

  // Facts about concatenation, stated one at a time so that longer proofs only rewrite with them.

  lemma Assoc<T>(a: seq<T>, b: seq<T>, c: seq<T>)
    ensures (a + b) + c == a + (b + c)
  {}

  lemma Uncons<T>(s: seq<T>)
    requires s != []
    ensures s == [s[0]] + s[1..]
  {}

  lemma Rest<T>(a: seq<T>, b: seq<T>)
    ensures (a + b)[|a|..] == b && (a + b)[..|a|] == a
  {}

  lemma Head<T>(x: T, b: seq<T>)
    ensures ([x] + b)[0] == x && ([x] + b)[1..] == b
  {}

  lemma IndexLeft<T>(a: seq<T>, b: seq<T>, i: nat)
    requires i < |a|
    ensures (a + b)[i] == a[i]
  {}

  lemma Suffix<T>(s: seq<T>, k: nat)
    requires k < |s|
    ensures s[k..] == [s[k]] + s[k + 1..]
  {}

  lemma Regroup<T>(a: seq<T>, x: T, more: seq<T>, end: seq<T>)
    ensures (a + ([x] + more)) + end == a + ([x] + (more + end))
  {
    Assoc(a, [x] + more, end);
    Assoc([x], more, end);
  }

  /** A bracketed text followed by more text. */
  lemma Wrapped<T>(open: T, body: seq<T>, close: T, rest: seq<T>)
    ensures ([open] + (body + [close])) + rest == [open] + (body + ([close] + rest))
  {
    Assoc([open], body + [close], rest);
    Assoc(body, [close], rest);
  }
}
