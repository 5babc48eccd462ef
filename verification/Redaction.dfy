/** Redaction of e-mail addresses in the lines of the local log. */
module Redaction {
  import opened Texts

  const AT: CodeUnit := '@' as int
  const EMAIL_MARK: Text := Ascii("[email]")
  const MAX_LENGTH: nat := 300

  /** `[^\s@"'<>]`. */
  predicate IsPart(u: CodeUnit) {
    !IsSpace(u) && u != AT && u != QUOTE && u != '\'' as int && u != '<' as int && u != '>' as int
  }

  /** The units an address is made of: no white space, and none of five marks. */
  lemma IsPartIff(u: CodeUnit)
    ensures IsPart(u) <==> !IsSpace(u) && u !in Ascii("@\"'<>")
  {
    var marks := Ascii("@\"'<>");
    assert marks == ['@' as int, '\"' as int, '\'' as int, '<' as int, '>' as int];
  }

  predicate AllParts(t: Text) {
    forall i | 0 <= i < |t| :: IsPart(t[i])
  }

  // ----- What the pattern means -----

  /** `a` units, the at sign, a name with a dot at `d` that is neither its first nor its last unit. */
  ghost predicate IsEmailWith(s: Text, a: nat, d: nat) {
    && 0 < a && a + 1 < d && d + 1 < |s|
    && AllParts(s[..a]) && s[a] == AT && AllParts(s[a + 1..]) && s[d] == DOT
  }

  /** The whole text matches `/[^\s@"'<>]+@[^\s@"'<>]+\.[^\s@"'<>]+/`. */
  ghost predicate IsEmail(s: Text) {
    exists a: nat, d: nat :: IsEmailWith(s, a, d)
  }

  ghost predicate EmailAt(s: Text, i: nat, j: nat) {
    i <= j <= |s| && IsEmail(s[i..j])
  }

  ghost predicate HasEmail(s: Text) {
    exists i: nat, j: nat :: EmailAt(s, i, j)
  }

  // ----- How it is matched -----

  function PartRun(t: Text): (n: nat)
    ensures n <= |t| && (forall i | 0 <= i < n :: IsPart(t[i])) && (n < |t| ==> !IsPart(t[n]))
  {
    if t == [] || !IsPart(t[0]) then 0 else 1 + PartRun(t[1..])
  }

  function Run(t: Text): (run: Text)
    ensures AllParts(run)
  {
    t[..PartRun(t)]
  }

  /** A dot with a unit on either side of it. */
  predicate InnerDot(name: Text) {
    exists d | 0 < d < |name| - 1 :: name[d] == DOT
  }

  /** A match starts here; greedy as it is, it takes the whole run after the at sign. */
  predicate StartsEmail(t: Text) {
    var n := PartRun(t);
    0 < n < |t| && t[n] == AT && InnerDot(Run(t[n + 1..]))
  }

  function MatchEnd(t: Text): (e: nat)
    requires StartsEmail(t)
    ensures 0 < e <= |t|
  {
    var n := PartRun(t);
    n + 1 + PartRun(t[n + 1..])
  }

  /** `value.replace(EMAIL, '[email]')`: the leftmost match first. */
  function Replaced(t: Text): Text
    decreases |t|
  {
    if t == [] then []
    else if StartsEmail(t) then EMAIL_MARK + Replaced(t[MatchEnd(t)..])
    else [t[0]] + Replaced(t[1..])
  }

  /** `redact`. */
  function Redact(value: Text): (r: Text)
    ensures r <= Replaced(value)
    ensures |r| == if |Replaced(value)| <= 300 then |Replaced(value)| else 300
  {
    var replaced := Replaced(value);
    if |replaced| <= MAX_LENGTH then replaced else replaced[..MAX_LENGTH]
  }

  // ----- Matching is right -----

  lemma PartRunIs(t: Text, n: nat)
    requires n <= |t| && AllParts(t[..n]) && (n < |t| ==> !IsPart(t[n]))
    ensures PartRun(t) == n
  {
    assert forall i | 0 <= i < n :: t[i] == t[..n][i];
  }

  /** A match starts at the front exactly if some beginning of the text is an address; it takes the longest. */
  lemma StartsEmailIff(t: Text)
    ensures StartsEmail(t) <==> exists j | 0 <= j <= |t| :: IsEmail(t[..j])
    ensures StartsEmail(t) ==> IsEmail(t[..MatchEnd(t)])
    ensures StartsEmail(t) ==> forall j | 0 <= j <= |t| && IsEmail(t[..j]) :: j <= MatchEnd(t)
  {
    if StartsEmail(t) {
      MatchIsEmail(t);
    }
    forall j | 0 <= j <= |t| && IsEmail(t[..j])
      ensures StartsEmail(t) && j <= MatchEnd(t)
    {
      EmailIsMatched(t, j);
    }
  }

  lemma MatchIsEmail(t: Text)
    requires StartsEmail(t)
    ensures IsEmail(t[..MatchEnd(t)])
  {
    var n, e := PartRun(t), MatchEnd(t);
    var name := Run(t[n + 1..]);
    var d :| 0 < d < |name| - 1 && name[d] == DOT;
    var s := t[..e];
    assert s[n + 1..] == name;
    assert s[n + 1 + d] == name[d];
    assert IsEmailWith(s, n, n + 1 + d);
  }

  lemma EmailIsMatched(t: Text, j: nat)
    requires j <= |t| && IsEmail(t[..j])
    ensures StartsEmail(t) && j <= MatchEnd(t)
  {
    var s := t[..j];
    var a: nat, d: nat :| IsEmailWith(s, a, d);
    assert t[..a] == s[..a] && t[a] == s[a];
    PartRunIs(t, a);
    var after := t[a + 1..];
    assert forall i | 0 <= i < j - a - 1 :: after[i] == s[a + 1..][i];
    assert PartRun(after) >= j - a - 1;
    assert Run(after)[d - a - 1] == s[d];
  }

  /** A match starts somewhere. */
  predicate AnyEmail(t: Text) {
    t != [] && (StartsEmail(t) || AnyEmail(t[1..]))
  }

  lemma EmailShifts(t: Text, i: nat, j: nat)
    requires t != []
    ensures EmailAt(t[1..], i, j) <==> EmailAt(t, i + 1, j + 1)
  {
    hide IsEmail;
    if i <= j < |t| {
      assert t[1..][i..j] == t[i + 1..j + 1];
    }
  }

  lemma HasEmailStep(t: Text)
    requires t != []
    ensures HasEmail(t) <==> StartsEmail(t) || HasEmail(t[1..])
  {
    hide IsEmail, StartsEmail, EmailAt;
    StartsEmailIff(t);
    EmailAtFront(t);
    if HasEmail(t[1..]) {
      var i: nat, j: nat :| EmailAt(t[1..], i, j);
      EmailShifts(t, i, j);
    }
    if HasEmail(t) && !StartsEmail(t) {
      var i: nat, j: nat :| EmailAt(t, i, j);
      if i > 0 {
        NoEmptyEmail(t, i, j);
        EmailShifts(t, i - 1, j - 1);
      }
    }
  }

  lemma EmailAtFront(t: Text)
    ensures (exists j: nat :: EmailAt(t, 0, j)) <==> exists j | 0 <= j <= |t| :: IsEmail(t[..j])
  {
    hide IsEmail;
    forall j: nat | j <= |t|
      ensures EmailAt(t, 0, j) <==> IsEmail(t[..j])
    {
      assert t[0..j] == t[..j];
    }
  }

  lemma NoEmptyEmail(t: Text, i: nat, j: nat)
    requires EmailAt(t, i, j)
    ensures i < j
  {}

  lemma {:induction false} AnyEmailIff(t: Text)
    ensures AnyEmail(t) <==> HasEmail(t)
  {
    hide HasEmail, StartsEmail;
    if t == [] {
      NoEmailInNothing();
    } else {
      AnyEmailIff(t[1..]);
      HasEmailStep(t);
    }
  }

  lemma NoEmailInNothing()
    ensures !HasEmail([])
  {}

  // ----- What replacement leaves -----

  /**
   * Scanning the text, some match is directly followed by an at sign and a dotted name that does not
   * start a match of its own.
   */
  predicate LeavesEmail(t: Text)
    decreases |t|
  {
    t != [] &&
    if StartsEmail(t) then
      var rest := t[MatchEnd(t)..];
      (rest != [] && rest[0] == AT && Trails(rest[1..])) || LeavesEmail(rest)
    else LeavesEmail(t[1..])
  }

  /** A dotted name that starts no match. */
  predicate Trails(t: Text) {
    InnerDot(Run(t)) && !StartsEmail(t)
  }

  lemma RunConcat(a: Text, s: Text)
    requires AllParts(a) && (s != [] ==> !IsPart(s[0]))
    ensures PartRun(a + s) == |a| && Run(a + s) == a && (a + s)[|a|..] == s
  {
    assert (a + s)[..|a|] == a;
    if s != [] { assert (a + s)[|a|] == s[0]; }
    PartRunIs(a + s, |a|);
  }

  lemma MarkIsOneRun()
    ensures AllParts(EMAIL_MARK) && !InnerDot(EMAIL_MARK) && EMAIL_MARK != []
  {}

  /** After a separator the text goes on with it, replaced or not. */
  lemma SeparatorStays(t: Text)
    requires t == [] || !IsPart(t[0])
    ensures t == [] ==> Replaced(t) == []
    ensures t != [] ==> !StartsEmail(t) && Replaced(t) == [t[0]] + Replaced(t[1..])
  {}

  lemma MatchEndsRun(t: Text)
    requires StartsEmail(t)
    ensures var rest := t[MatchEnd(t)..]; rest == [] || !IsPart(rest[0])
  {}

  lemma RunStep(t: Text)
    requires t != [] && IsPart(t[0])
    ensures PartRun(t) == 1 + PartRun(t[1..]) && Run(t) == [t[0]] + Run(t[1..])
    ensures t[PartRun(t)..] == t[1..][PartRun(t[1..])..]
  {
    hide IsPart;
    var n := PartRun(t[1..]);
    assert t[1..][n..] == t[n + 1..];
    assert t[..n + 1] == [t[0]] + t[1..][..n];
  }

  /** The same run without its first unit. */
  lemma ShorterRun(t: Text)
    requires t != [] && IsPart(t[0]) && !StartsEmail(t)
    ensures !StartsEmail(t[1..])
  {
    hide IsPart, PartRun, Run, InnerDot;
    RunStep(t);
    var u := t[1..];
    var n := PartRun(u);
    if 0 < n < |u| {
      assert u[n + 1..] == t[n + 2..] && u[n] == t[n + 1];
    }
  }

  /** A run that starts no match is copied whole. */
  lemma {:induction false} RunIsCopied(t: Text)
    requires !StartsEmail(t)
    ensures Replaced(t) == Run(t) + Replaced(t[PartRun(t)..])
  {
    hide StartsEmail, Run, IsPart, MatchEnd;
    if t == [] || !IsPart(t[0]) {
      EmptyRun(t);
      assert [] + Replaced(t) == Replaced(t);
    } else {
      RunStep(t);
      ShorterRun(t);
      RunIsCopied(t[1..]);
      Assoc([t[0]], Run(t[1..]), Replaced(t[PartRun(t)..]));
    }
  }

  lemma EmptyRun(t: Text)
    requires t == [] || !IsPart(t[0])
    ensures Run(t) == [] && t[PartRun(t)..] == t
  {}

  /** The first run of the replaced text: the mark, or the first run of the text. */
  lemma FirstRun(t: Text)
    ensures Run(Replaced(t)) == if StartsEmail(t) then EMAIL_MARK else Run(t)
  {
    MarkIsOneRun();
    if StartsEmail(t) {
      var rest := t[MatchEnd(t)..];
      MatchEndsRun(t);
      SeparatorStays(rest);
      RunConcat(EMAIL_MARK, Replaced(rest));
    } else {
      var rest := t[PartRun(t)..];
      RunIsCopied(t);
      SeparatorStays(rest);
      RunConcat(Run(t), Replaced(rest));
    }
  }

  /** After a run, an at sign and `v`, a match in the replaced text needs a dotted name left in `v`. */
  lemma AfterRun(run: Text, rest: Text)
    requires AllParts(run) && run != [] && (rest != [] ==> !IsPart(rest[0]))
    ensures StartsEmail(run + Replaced(rest)) <==> rest != [] && rest[0] == AT && Trails(rest[1..])
  {
    SeparatorStays(rest);
    var s := run + Replaced(rest);
    RunConcat(run, Replaced(rest));
    if rest != [] {
      var v := rest[1..];
      FirstRun(v);
      MarkIsOneRun();
      assert s[|run|] == rest[0] && s[|run| + 1..] == Replaced(v);
    } else {
      assert s == run;
    }
  }

  lemma {:induction false} AfterMark(mark: Text, rest: Text)
    requires AllParts(mark) && (rest != [] ==> !IsPart(rest[0]))
    ensures AnyEmail(mark + Replaced(rest)) <==>
      (mark != [] && rest != [] && rest[0] == AT && Trails(rest[1..])) || AnyEmail(Replaced(rest))
    decreases |mark|
  {
    var s := mark + Replaced(rest);
    if mark == [] {
      assert s == Replaced(rest);
    } else {
      AfterRun(mark, rest);
      assert s[1..] == mark[1..] + Replaced(rest);
      AfterMark(mark[1..], rest);
    }
  }

  /** Copying a unit starts no match. */
  lemma CopiedStartsNone(t: Text)
    requires t != [] && !StartsEmail(t)
    ensures !StartsEmail(Replaced(t))
  {
    if IsPart(t[0]) {
      var rest := t[PartRun(t)..];
      RunIsCopied(t);
      AfterRun(Run(t), rest);
      if rest != [] { assert rest[1..] == t[PartRun(t) + 1..]; }
    }
  }

  /** The exact condition under which an address is left. */
  lemma {:induction false} LeavesEmailIff(t: Text)
    ensures HasEmail(Replaced(t)) <==> LeavesEmail(t)
    decreases |t|
  {
    AnyEmailIff(Replaced(t));
    if t != [] {
      if StartsEmail(t) {
        var rest := t[MatchEnd(t)..];
        MatchEndsRun(t);
        MarkIsOneRun();
        AfterMark(EMAIL_MARK, rest);
        LeavesEmailIff(rest);
        AnyEmailIff(Replaced(rest));
      } else {
        CopiedStartsNone(t);
        Head(t[0], Replaced(t[1..]));
        LeavesEmailIff(t[1..]);
        AnyEmailIff(Replaced(t[1..]));
      }
    } else {
      assert !HasEmail([]) by { AnyEmailIff([]); }
    }
  }

  /**
   * Which characters go: after text in which no match starts, the longest match becomes the mark, and the
   * rest is treated alike.
   */
  lemma {:induction false} ReplacedFirst(before: Text, email: Text, rest: Text)
    requires IsEmail(email) && forall j | |email| < j <= |email + rest| :: !IsEmail((email + rest)[..j])
    requires forall i: nat, j: nat | i < |before| :: !EmailAt(before + (email + rest), i, j)
    ensures Replaced(before + (email + rest)) == before + (Ascii("[email]") + Replaced(rest))
  {
    hide IsEmail, StartsEmail, Replaced;
    var t := before + (email + rest);
    StartsEmailIff(t);
    EmailAtFront(t);
    if before == [] {
      Rest(email, rest);
      assert t == email + rest;
      assert IsEmail(t[..|email|]);
      assert MatchEnd(t) == |email|;
      ReplacedStep(t);
    } else {
      var more := before[1..] + (email + rest);
      assert t == [before[0]] + more && t[1..] == more;
      assert forall j: nat :: !EmailAt(t, 0, j);
      forall i: nat, j: nat | i < |before| - 1
        ensures !EmailAt(more, i, j)
      {
        EmailShifts(t, i, j);
      }
      CopiedStep(t);
      ReplacedFirst(before[1..], email, rest);
    }
  }

  lemma CopiedStep(t: Text)
    requires t != [] && !StartsEmail(t)
    ensures Replaced(t) == [t[0]] + Replaced(t[1..])
  {}

  /** Text without an address is untouched, up to its length. */
  lemma {:induction false} ReplacedKeeps(t: Text)
    requires !HasEmail(t)
    ensures Replaced(t) == t
  {
    AnyEmailIff(t);
    if t != [] {
      AnyEmailIff(t[1..]);
      ReplacedKeeps(t[1..]);
    }
  }

  /** Cutting a text makes no address. */
  lemma PrefixHasEmail(t: Text, n: nat)
    requires n <= |t| && HasEmail(t[..n])
    ensures HasEmail(t)
  {
    hide IsEmail;
    var i: nat, j: nat :| EmailAt(t[..n], i, j);
    assert t[..n][i..j] == t[i..j];
    assert EmailAt(t, i, j);
  }

  /**
   * Redacting leaves an address only where one is directly followed by an at sign and a dotted name;
   * a text short enough not to be cut keeps one exactly then. Other text stays as it is.
   */
  lemma RedactLeavesIff(t: Text)
    ensures HasEmail(Redact(t)) ==> LeavesEmail(t)
    ensures |Replaced(t)| <= MAX_LENGTH ==> (HasEmail(Redact(t)) <==> LeavesEmail(t))
    ensures !HasEmail(t) ==> Redact(t) == if |t| <= MAX_LENGTH then t else t[..MAX_LENGTH]
  {
    hide Replaced, HasEmail, LeavesEmail;
    LeavesEmailIff(t);
    if HasEmail(Redact(t)) && |Replaced(t)| > MAX_LENGTH {
      PrefixHasEmail(Replaced(t), MAX_LENGTH);
    }
    if !HasEmail(t) {
      ReplacedKeeps(t);
    }
  }

  /** "a@b.c@d.e" becomes "[email]@d.e", which still reads as an address. */
  lemma ChainedAddressIsLeft()
    ensures Redact(Ascii("a@b.c@d.e")) == Ascii("[email]@d.e") && HasEmail(Ascii("[email]@d.e"))
  {
    hide Replaced, HasEmail, StartsEmail, LeavesEmail;
    var first, name, last := Ascii("a"), Ascii("b.c"), Ascii("d.e");
    var rest := [AT] + last;
    var t := first + ([AT] + (name + rest));
    assert t == Ascii("a@b.c@d.e");
    assert name[1] == DOT;
    OneMatch(first, name, rest);
    SeparatorStays(rest);
    Head(AT, last);
    LastRun(last);
    assert EMAIL_MARK + rest == Ascii("[email]@d.e");
    ExampleIsEmail();
  }

  lemma OneMatch(first: Text, name: Text, rest: Text)
    requires AllParts(first) && first != [] && AllParts(name) && InnerDot(name)
    requires rest != [] ==> !IsPart(rest[0])
    ensures Replaced(first + ([AT] + (name + rest))) == EMAIL_MARK + Replaced(rest)
  {
    hide Replaced;
    var t := first + ([AT] + (name + rest));
    RunConcat(first, [AT] + (name + rest));
    RunConcat(name, rest);
    assert t[|first|] == AT && t[|first| + 1..] == name + rest;
    assert StartsEmail(t) && MatchEnd(t) == |first| + 1 + |name|;
    assert t[MatchEnd(t)..] == rest;
    ReplacedStep(t);
  }

  lemma ReplacedStep(t: Text)
    requires StartsEmail(t)
    ensures Replaced(t) == EMAIL_MARK + Replaced(t[MatchEnd(t)..])
  {}

  lemma LastRun(t: Text)
    requires AllParts(t)
    ensures Replaced(t) == t
  {
    hide Replaced;
    assert t[..|t|] == t;
    PartRunIs(t, |t|);
    assert !StartsEmail(t);
    RunIsCopied(t);
    SeparatorStays([]);
    assert t[|t|..] == [] && t + [] == t;
  }

  lemma ExampleIsEmail()
    ensures HasEmail(Ascii("[email]@d.e"))
  {
    var t := Ascii("[email]@d.e");
    assert IsEmailWith(t, 7, 9);
    assert t[0..11] == t;
    assert EmailAt(t, 0, 11);
  }
}
