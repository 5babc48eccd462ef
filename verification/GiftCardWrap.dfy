/** How the gift card breaks a message into lines, and when it adds an ellipsis. */
module GiftCardWrap {
  import opened Texts

  const ELLIPSIS: CodeUnit := 0x2026

  /** `words.join(' ')`. */
  function Spaced(words: seq<Text>): Text {
    Join(words, SPACE)
  }

  /** `text.split(/\s+/)`: the pieces between runs of white space, empty ones at the ends kept. */
  function Split(text: Text): (words: seq<Text>)
    ensures words != []
    decreases |text|
  {
    var n := WordRun(text);
    if n == |text| then [text] else [text[..n]] + Split(AfterGap(text, n))
  }

  /** What follows the white space at `n`. */
  function AfterGap(text: Text, n: nat): (rest: Text)
    requires n < |text| && IsSpace(text[n])
    ensures |rest| < |text|
  {
    text[n..][SpaceRun(text[n..])..]
  }

  function WordRun(t: Text): (n: nat)
    ensures n <= |t| && (n < |t| ==> IsSpace(t[n])) && forall i | 0 <= i < n :: !IsSpace(t[i])
  {
    if t == [] || IsSpace(t[0]) then 0 else 1 + WordRun(t[1..])
  }

  function SpaceRun(t: Text): (n: nat)
    ensures n <= |t| && (n < |t| ==> !IsSpace(t[n])) && forall i | 0 <= i < n :: IsSpace(t[i])
    ensures t != [] && IsSpace(t[0]) ==> n > 0
  {
    if t == [] || !IsSpace(t[0]) then 0 else 1 + SpaceRun(t[1..])
  }

  // ----- What the loop leaves in `lines` -----

  function Candidate(current: Text, word: Text): Text {
    if current == [] then word else current + ([SPACE] + word)
  }

  /** The lines pushed for `words` when `current` is being filled and `room` lines are left. */
  function Lines(words: seq<Text>, current: Text, perLine: nat, room: nat): (lines: seq<Text>)
    ensures |lines| <= room
  {
    if room == 0 then []
    else if words == [] then if current == [] then [] else [current]
    else
      var candidate := Candidate(current, words[0]);
      if |candidate| <= perLine then Lines(words[1..], candidate, perLine, room)
      else [current] + Lines(words[1..], words[0], perLine, room - 1)
  }

  predicate IsPunctuation(u: CodeUnit) {
    u == '.' as int || u == ',' as int || u == ';' as int || u == ':' as int
  }

  predicate EndsInPunctuation(line: Text) {
    line != [] && IsPunctuation(line[|line| - 1])
  }

  /** `${line.replace(/[.,;:]$/, '')}…`. */
  function Elide(line: Text): Text {
    (if EndsInPunctuation(line) then line[..|line| - 1] else line) + [ELLIPSIS]
  }

  /** The ellipsis step runs: every line is used and they hold less than the text. */
  predicate Marked(text: Text, lines: seq<Text>, maxLines: nat) {
    |lines| == maxLines && |text| > |Spaced(lines)|
  }

  function Mark(text: Text, lines: seq<Text>, maxLines: nat): (marked: seq<Text>)
    requires maxLines > 0 && |lines| <= maxLines
    ensures |marked| == |lines|
  {
    if Marked(text, lines, maxLines) then lines[maxLines - 1 := Elide(lines[maxLines - 1])] else lines
  }

  /** `marked` is `line` with an ellipsis, in place of the mark of punctuation it ends in if there is one. */
  ghost predicate EllipsisAdded(line: Text, marked: Text) {
    var cut :=
      if line != [] && line[|line| - 1] in Ascii(".,;:") then 1 else 0;
    marked == line[..|line| - cut] + [0x2026]
  }

  lemma ElideAddsEllipsis(line: Text)
    ensures EllipsisAdded(line, Elide(line))
  {
    assert Ascii(".,;:") == ['.' as int, ',' as int, ';' as int, ':' as int];
    assert line[..|line|] == line;
  }

  /**
   * The lines are the greedy ones, except that the last one gets the ellipsis when all lines are used
   * and hold less than the text.
   */
  method Wrap(text: Text, perLine: nat, maxLines: nat) returns (lines: seq<Text>)
    requires maxLines > 0
    ensures lines == Mark(text, Lines(Split(text), [], perLine, maxLines), maxLines)
    ensures var greedy := Lines(Split(text), [], perLine, maxLines);
      && |lines| == |greedy| && (forall i | 0 <= i < |greedy| - 1 :: lines[i] == greedy[i])
      && (greedy != [] ==>
            var last := |greedy| - 1;
            if |greedy| == maxLines && |text| > |Spaced(greedy)| then EllipsisAdded(greedy[last], lines[last])
            else lines[last] == greedy[last])
  {
    hide Split, Lines, Candidate, Elide, EllipsisAdded, Spaced;
    lines := [];
    var current: Text := [];
    var words := Split(text);
    var i := 0;
    ghost var all := Lines(words, [], perLine, maxLines);
    assert words[0..] == words && lines + all == all;
    while i < |words|
      invariant 0 <= i <= |words| && |lines| < maxLines
      invariant lines + Lines(words[i..], current, perLine, maxLines - |lines|) == all
    {
      var word := words[i];
      var candidate := Candidate(current, word);
      LinesStep(words, i, current, perLine, maxLines - |lines|);
      if |candidate| <= perLine {
        current := candidate;
        i := i + 1;
        continue;
      }
      Assoc(lines, [current], Lines(words[i + 1..], word, perLine, maxLines - |lines| - 1));
      lines := lines + [current];
      current := word;
      i := i + 1;
      if |lines| == maxLines { break; }
    }
    LinesEnd(words, i, current, perLine, maxLines - |lines|);
    if current != [] && |lines| < maxLines {
      lines := lines + [current];
    }
    assert lines == all;
    if |lines| == maxLines && |text| > |Spaced(lines)| {
      ElideAddsEllipsis(lines[maxLines - 1]);
      lines := lines[maxLines - 1 := Elide(lines[maxLines - 1])];
    }
  }

  /** When the words or the lines have run out. */
  lemma LinesEnd(words: seq<Text>, k: nat, current: Text, perLine: nat, room: nat)
    requires k <= |words| && (k == |words| || room == 0)
    ensures Lines(words[k..], current, perLine, room) == if room == 0 || current == [] then [] else [current]
  {}

  lemma LinesStep(words: seq<Text>, k: nat, current: Text, perLine: nat, room: nat)
    requires k < |words| && room > 0
    ensures var candidate := Candidate(current, words[k]);
      Lines(words[k..], current, perLine, room) ==
        if |candidate| <= perLine then Lines(words[k + 1..], candidate, perLine, room)
        else [current] + Lines(words[k + 1..], words[k], perLine, room - 1)
  {
    assert words[k..][1..] == words[k + 1..];
  }

  /** Only a single word longer than the line can make an overlong line. */
  lemma {:induction false} OverlongLineIsOneWord(words: seq<Text>, k: nat, current: Text, perLine: nat, room: nat)
    requires k <= |words| && (|current| <= perLine || current in words)
    ensures forall i | 0 <= i < |Lines(words[k..], current, perLine, room)| ::
      var line := Lines(words[k..], current, perLine, room)[i];
      |line| <= perLine || line in words
    decreases |words| - k
  {
    hide Lines, Candidate;
    if room == 0 || k == |words| {
      LinesEnd(words, k, current, perLine, room);
    } else {
      var candidate := Candidate(current, words[k]);
      LinesStep(words, k, current, perLine, room);
      if |candidate| <= perLine {
        OverlongLineIsOneWord(words, k + 1, candidate, perLine, room);
      } else {
        OverlongLineIsOneWord(words, k + 1, words[k], perLine, room - 1);
      }
    }
  }

  // ----- The words of a text -----

  predicate IsWord(w: Text) { w != [] && forall i | 0 <= i < |w| :: !IsSpace(w[i]) }

  predicate AllWords(words: seq<Text>) {
    forall i | 0 <= i < |words| :: IsWord(words[i])
  }

  /** The maximal runs without white space. */
  function WordsOf(text: Text): (words: seq<Text>)
    ensures AllWords(words)
    decreases |text|
  {
    var rest := text[SpaceRun(text)..];
    if rest == [] then []
    else
      var n := WordRun(rest);
      [rest[..n]] + WordsOf(rest[n..])
  }

  predicate StartsBlank(text: Text) { text == [] || IsSpace(text[0]) }

  predicate EndsBlank(text: Text) { text != [] && IsSpace(text[|text| - 1]) }

  /** The empty piece that splitting leaves at an end with white space. */
  function Blank(there: bool): (pieces: seq<Text>) {
    if there then [[]] else []
  }

  lemma WordsAfterSpace(text: Text, k: nat)
    requires k <= SpaceRun(text)
    ensures WordsOf(text) == WordsOf(text[k..])
    decreases k
  {
    if k > 0 {
      WordsAfterSpace(text[1..], k - 1);
      assert text[1..][k - 1..] == text[k..];
      assert text[1..][SpaceRun(text[1..])..] == text[SpaceRun(text)..];
    } else {
      assert text[0..] == text;
    }
  }

  lemma WordFirst(text: Text)
    requires text != [] && !IsSpace(text[0])
    ensures var n := WordRun(text);
      n > 0 && IsWord(text[..n]) && WordsOf(text) == [text[..n]] + WordsOf(text[n..])
  {
    assert text[0..] == text;
  }

  /** What splitting the rest after a gap gives, for a text that ends in white space or does not. */
  lemma RestOfSplit(rest: Text, blank: bool)
    requires if rest == [] then blank else !StartsBlank(rest) && EndsBlank(rest) == blank
    ensures Blank(StartsBlank(rest)) + (WordsOf(rest) + Blank(EndsBlank(rest))) == WordsOf(rest) + Blank(blank)
  {
    hide WordsOf;
    NoWords();
  }

  /** Splitting gives the words, and an empty piece at each end that has white space. */
  lemma {:induction false} SplitShape(text: Text)
    ensures Split(text) == Blank(StartsBlank(text)) + (WordsOf(text) + Blank(EndsBlank(text)))
    decreases |text|
  {
    hide Split, WordsOf, WordRun, AfterGap, EndsBlank, IsSpace;
    var n := WordRun(text);
    SplitStep(text);
    if n == |text| {
      WholeWord(text);
    } else {
      var rest, end := AfterGap(text, n), Blank(EndsBlank(text));
      GapEnds(text, n);
      SplitShape(rest);
      RestOfSplit(rest, EndsBlank(text));
      assert Split(text) == [text[..n]] + (WordsOf(rest) + end);
      if n > 0 {
        WordFirst(text);
        Assoc([text[..n]], WordsOf(rest), end);
        assert [] + (WordsOf(text) + end) == WordsOf(text) + end;
      } else {
        assert text[..0] == [];
      }
    }
  }

  /** The text after a gap has the same end, starts with a word, and has the words of the gap and what follows. */
  lemma GapEnds(text: Text, n: nat)
    requires n < |text| && IsSpace(text[n])
    ensures var rest := AfterGap(text, n);
      && WordsOf(text[n..]) == WordsOf(rest)
      && (rest != [] ==> !StartsBlank(rest) && EndsBlank(rest) == EndsBlank(text))
      && (rest == [] ==> EndsBlank(text))
    ensures n == 0 ==> text[n..] == text
  {
    hide WordsOf;
    var gap := text[n..];
    var k := SpaceRun(gap);
    WordsAfterSpace(gap, k);
    assert gap[|gap| - 1] == text[|text| - 1];
    if k == |gap| {
      assert IsSpace(gap[k - 1]);
    } else {
      assert gap[k..][|gap| - k - 1] == gap[|gap| - 1];
    }
  }

  lemma NoWords()
    ensures WordsOf([]) == []
  {}

  lemma WholeWord(text: Text)
    requires WordRun(text) == |text|
    ensures [text] == Blank(StartsBlank(text)) + (WordsOf(text) + Blank(EndsBlank(text)))
  {
    if text != [] {
      WordFirst(text);
      assert text[..|text|] == text && text[|text|..] == [];
    }
  }

  lemma SplitStep(text: Text)
    ensures var n := WordRun(text);
      Split(text) == if n == |text| then [text] else [text[..n]] + Split(AfterGap(text, n))
  {}

  // ----- Line breakings -----

  /** The width of `words[a..b]` set on one line. */
  function Width(words: seq<Text>, a: nat, b: nat): nat
    requires a <= b <= |words|
    decreases b
  {
    if a == b then 0
    else if b == a + 1 then |words[a]|
    else Width(words, a, b - 1) + 1 + |words[b - 1]|
  }

  /** The words `a..b` make a line: they fit, or there is only one. */
  predicate IsLine(words: seq<Text>, a: nat, b: nat, perLine: nat) {
    a < b <= |words| && (b == a + 1 || Width(words, a, b) <= perLine)
  }

  /** A legal breaking from word `start`: each cut ends a line. */
  predicate Legal(words: seq<Text>, start: nat, cuts: seq<nat>, perLine: nat)
    decreases |cuts|
  {
    cuts == [] || (IsLine(words, start, cuts[0], perLine) && Legal(words, cuts[0], cuts[1..], perLine))
  }

  /** How many words are shown. */
  function Last(start: nat, cuts: seq<nat>): nat {
    if cuts == [] then start else cuts[|cuts| - 1]
  }

  /** Where the last line starts. */
  function LastStart(start: nat, cuts: seq<nat>): nat {
    if |cuts| <= 1 then start else cuts[|cuts| - 2]
  }

  /** What a line keeps of white space at the end of the text: one space, if it is the last and has room. */
  function Pad(words: seq<Text>, a: nat, b: nat, perLine: nat, blank: bool): (pad: Text)
    ensures |pad| <= 1
  {
    if blank && a <= b == |words| && Width(words, a, b) < perLine then [SPACE] else []
  }

  /** The lines a breaking sets, when the text ends in white space or does not. */
  function Render(words: seq<Text>, start: nat, cuts: seq<nat>, perLine: nat, blank: bool): seq<Text>
    decreases |cuts|
  {
    if cuts == [] || !(start <= cuts[0] <= |words|) then []
    else
      [Spaced(words[start..cuts[0]]) + Pad(words, start, cuts[0], perLine, blank)]
        + Render(words, cuts[0], cuts[1..], perLine, blank)
  }

  /** Where a line from `start`, already holding up to `end`, stops growing. */
  function LineEnd(words: seq<Text>, start: nat, end: nat, perLine: nat): (e: nat)
    requires IsLine(words, start, end, perLine)
    ensures end <= e && IsLine(words, start, e, perLine)
    decreases |words| - end
  {
    if end < |words| && Width(words, start, end + 1) <= perLine
    then LineEnd(words, start, end + 1, perLine)
    else end
  }

  function Greedy(words: seq<Text>, start: nat, perLine: nat, room: nat): (cuts: seq<nat>)
    requires start <= |words|
    ensures |cuts| <= room && Legal(words, start, cuts, perLine)
    ensures start <= Last(start, cuts) <= |words|
    ensures Last(start, cuts) < |words| ==> |cuts| == room
    ensures room > 0 && start < |words| ==> cuts != []
    decreases room
  {
    if room == 0 || start == |words| then []
    else
      var e := LineEnd(words, start, start + 1, perLine);
      [e] + Greedy(words, e, perLine, room - 1)
  }

  /** A first word too long for a line leaves the first line empty. */
  function Skipped(words: seq<Text>, perLine: nat): nat {
    if words != [] && |words[0]| > perLine then 1 else 0
  }

  /** The cuts of the loop: greedy, in the lines that are left. */
  function Cuts(words: seq<Text>, perLine: nat, maxLines: nat): (cuts: seq<nat>)
    requires maxLines > 0
    ensures |cuts| + Skipped(words, perLine) <= maxLines && Legal(words, 0, cuts, perLine)
    ensures Last(0, cuts) <= |words|
    ensures Last(0, cuts) < |words| ==> |cuts| + Skipped(words, perLine) == maxLines
  {
    Greedy(words, 0, perLine, maxLines - Skipped(words, perLine))
  }

  // ----- The loop's lines are the greedy breaking -----

  lemma {:induction false} SpacedWidth(words: seq<Text>, a: nat, b: nat)
    requires a <= b <= |words|
    ensures |Spaced(words[a..b])| == Width(words, a, b)
    decreases b
  {
    if b > a + 1 {
      SpacedWidth(words, a, b - 1);
      SpacedAppend(words[a..b - 1], words[b - 1]);
      assert words[a..b] == words[a..b - 1] + [words[b - 1]];
    }
  }

  lemma {:induction false} SpacedAppend(words: seq<Text>, last: Text)
    requires words != []
    ensures Spaced(words + [last]) == Spaced(words) + ([SPACE] + last)
  {
    IndexLeft(words, [last], 0);
    if |words| == 1 {
      assert (words + [last])[1..] == [last];
      assert Spaced([last]) == last;
    } else {
      SpacedAppend(words[1..], last);
      assert (words + [last])[1..] == words[1..] + [last];
      Regroup(words[0], SPACE, Spaced(words[1..]), [SPACE] + last);
    }
  }

  lemma {:induction false} WidthMonotone(words: seq<Text>, a: nat, a': nat, b: nat)
    requires a <= a' < b <= |words|
    ensures Width(words, a', b) <= Width(words, a, b)
    decreases b
  {
    if b > a' + 1 { WidthMonotone(words, a, a', b - 1); }
  }

  lemma {:induction false} WidthGrows(words: seq<Text>, a: nat, b: nat, b': nat)
    requires a <= b <= b' <= |words|
    ensures Width(words, a, b) <= Width(words, a, b')
    ensures a < b < b' ==> Width(words, a, b) < Width(words, a, b')
    decreases b'
  {
    if b < b' { WidthGrows(words, a, b, b' - 1); }
  }

  /** Filling a line, then the next ones. */
  lemma {:induction false} LinesAreGreedy(
    words: seq<Text>, start: nat, end: nat, perLine: nat, room: nat, blank: bool)
    requires AllWords(words) && IsLine(words, start, end, perLine) && room > 0
    ensures var e := LineEnd(words, start, end, perLine);
      Lines(words[end..] + Blank(blank), Spaced(words[start..end]), perLine, room)
      == Render(words, start, [e] + Greedy(words, e, perLine, room - 1), perLine, blank)
    decreases |words| - end
  {
    hide Lines, Width, Spaced, Candidate, Render, Greedy, Legal, Pad, Blank;
    var current := Spaced(words[start..end]);
    if end == |words| {
      LastLine(words, start, perLine, room, blank);
      RenderStep(words, start, end, [], perLine, blank);
      GreedyStep(words, end, perLine, room - 1, blank);
    } else {
      NextCandidate(words, start, end);
      LinesNext(words, end, current, perLine, room, blank);
      if Width(words, start, end + 1) <= perLine {
        LinesAreGreedy(words, start, end + 1, perLine, room, blank);
      } else {
        GreedyStep(words, end, perLine, room - 1, blank);
        RenderStep(words, start, end, Greedy(words, end, perLine, room - 1), perLine, blank);
        InnerLine(words, start, end, perLine, blank);
        if room > 1 {
          SingleWord(words, end);
          LinesAreGreedy(words, end, end + 1, perLine, room - 1, blank);
        } else {
          NoRoom(words[end + 1..] + Blank(blank), words[end], perLine);
        }
      }
    }
  }

  lemma NoRoom(words: seq<Text>, current: Text, perLine: nat)
    ensures Lines(words, current, perLine, 0) == []
  {}

  lemma LinesNext(words: seq<Text>, k: nat, current: Text, perLine: nat, room: nat, blank: bool)
    requires k < |words| && room > 0
    ensures var candidate := Candidate(current, words[k]);
      Lines(words[k..] + Blank(blank), current, perLine, room) ==
        if |candidate| <= perLine then Lines(words[k + 1..] + Blank(blank), candidate, perLine, room)
        else [current] + Lines(words[k + 1..] + Blank(blank), words[k], perLine, room - 1)
  {
    assert (words[k..] + Blank(blank))[1..] == words[k + 1..] + Blank(blank);
  }

  /** After the last word the line is closed, with a space if there is white space and room for it. */
  lemma LastLine(words: seq<Text>, start: nat, perLine: nat, room: nat, blank: bool)
    requires AllWords(words) && start < |words| && room > 0
    ensures var current := Spaced(words[start..|words|]);
      Lines(words[|words|..] + Blank(blank), current, perLine, room)
      == [current + Pad(words, start, |words|, perLine, blank)]
  {
    hide Spaced, Width;
    var current := Spaced(words[start..|words|]);
    LineNotEmpty(words, start, |words|);
    SpacedWidth(words, start, |words|);
    assert words[|words|..] + Blank(blank) == Blank(blank) && current + [] == current;
    if blank {
      var ends: seq<Text> := [[]];
      assert ends[1..] == [] && ends[0] == [];
      assert Candidate(current, []) == current + [SPACE];
      assert Lines([], current + [SPACE], perLine, room) == [current + [SPACE]];
      assert Lines([], [], perLine, room - 1) == [];
    }
  }

  lemma InnerLine(words: seq<Text>, start: nat, end: nat, perLine: nat, blank: bool)
    requires start <= end < |words|
    ensures Spaced(words[start..end]) + Pad(words, start, end, perLine, blank) == Spaced(words[start..end])
  {}

  lemma GreedyStep(words: seq<Text>, start: nat, perLine: nat, room: nat, blank: bool)
    requires start <= |words|
    ensures room == 0 || start == |words| ==>
      Greedy(words, start, perLine, room) == [] && Render(words, start, [], perLine, blank) == []
    ensures room > 0 && start < |words| ==>
      var e := LineEnd(words, start, start + 1, perLine);
      Greedy(words, start, perLine, room) == [e] + Greedy(words, e, perLine, room - 1)
  {}

  lemma LineNotEmpty(words: seq<Text>, start: nat, end: nat)
    requires start < end <= |words| && IsWord(words[start])
    ensures Spaced(words[start..end]) != []
  {
    SpacedWidth(words, start, end);
    WidthGrows(words, start, start + 1, end);
  }

  /** The candidate line is the line one word longer. */
  lemma NextCandidate(words: seq<Text>, start: nat, end: nat)
    requires start < end < |words| && IsWord(words[start])
    ensures Candidate(Spaced(words[start..end]), words[end]) == Spaced(words[start..end + 1])
    ensures |Spaced(words[start..end + 1])| == Width(words, start, end + 1)
  {
    LineNotEmpty(words, start, end);
    SpacedAppend(words[start..end], words[end]);
    assert words[start..end] + [words[end]] == words[start..end + 1];
    SpacedWidth(words, start, end + 1);
  }

  lemma SingleWord(words: seq<Text>, i: nat)
    requires i < |words|
    ensures Spaced(words[i..i + 1]) == words[i] && Width(words, i, i + 1) == |words[i]|
  {}

  lemma RenderStep(words: seq<Text>, start: nat, cut: nat, cuts: seq<nat>, perLine: nat, blank: bool)
    requires start <= cut <= |words|
    ensures Render(words, start, [cut] + cuts, perLine, blank) ==
      [Spaced(words[start..cut]) + Pad(words, start, cut, perLine, blank)]
        + Render(words, cut, cuts, perLine, blank)
  {
    Head(cut, cuts);
  }

  /**
   * For every text, the lines pushed are the greedy breaking of its words, after an empty line if the
   * first word is too long.
   */
  lemma WrapIsGreedy(text: Text, perLine: nat, maxLines: nat)
    requires maxLines > 0
    ensures var words := WordsOf(text);
      Lines(Split(text), [], perLine, maxLines) ==
        Blank(Skipped(words, perLine) == 1)
        + Render(words, 0, Cuts(words, perLine, maxLines), perLine, EndsBlank(text))
  {
    hide Lines, Render, Spaced, LineEnd, Split, WordsOf;
    var words, blank := WordsOf(text), EndsBlank(text);
    var pieces := words + Blank(blank);
    SplitShape(text);
    BlankFirst(pieces, perLine, maxLines, StartsBlank(text));
    if words == [] {
      GreedyStep(words, 0, perLine, maxLines, blank);
      NothingToSet(blank, perLine, maxLines);
      assert pieces == Blank(blank);
    } else {
      FirstWord(words, perLine, maxLines, blank);
      var room := maxLines - Skipped(words, perLine);
      GreedyStep(words, 0, perLine, room, blank);
      if room > 0 {
        LinesAreGreedy(words, 0, 1, perLine, room, blank);
      } else {
        NoRoom(words[1..] + Blank(blank), Spaced(words[0..1]), perLine);
      }
    }
  }

  lemma NothingToSet(blank: bool, perLine: nat, room: nat)
    ensures Lines(Blank(blank), [], perLine, room) == []
  {
    if blank {
      var ends: seq<Text> := [[]];
      assert ends[1..] == [] && ends[0] == [];
    }
  }

  lemma BlankFirst(pieces: seq<Text>, perLine: nat, room: nat, blank: bool)
    ensures Lines(Blank(blank) + pieces, [], perLine, room) == Lines(pieces, [], perLine, room)
  {
    if blank {
      Head([], pieces);
    } else {
      assert Blank(blank) + pieces == pieces;
    }
  }

  lemma FirstWord(words: seq<Text>, perLine: nat, room: nat, blank: bool)
    requires words != [] && room > 0
    ensures Lines(words + Blank(blank), [], perLine, room) ==
      Blank(Skipped(words, perLine) == 1)
      + Lines(words[1..] + Blank(blank), Spaced(words[0..1]), perLine, room - Skipped(words, perLine))
  {
    hide Lines;
    assert words[0..] == words && words[0..1] == [words[0]];
    assert Spaced([words[0]]) == words[0];
    LinesNext(words, 0, [], perLine, room, blank);
    var more := Lines(words[1..] + Blank(blank), words[0], perLine, room);
    assert Blank(false) + more == more;
  }

  /** A line is empty exactly if it is the first and the first word is too long for it. */
  lemma EmptyLineIff(text: Text, perLine: nat, maxLines: nat, i: nat)
    requires maxLines > 0 && i < |Lines(Split(text), [], perLine, maxLines)|
    ensures var words := WordsOf(text);
      Lines(Split(text), [], perLine, maxLines)[i] == [] <==> i == 0 && words != [] && |words[0]| > perLine
  {
    hide Lines, Split, Greedy, WordsOf;
    var words := WordsOf(text);
    WrapIsGreedy(text, perLine, maxLines);
    RenderedAreNotEmpty(words, 0, Cuts(words, perLine, maxLines), perLine, EndsBlank(text));
  }

  predicate NoneEmpty(lines: seq<Text>) {
    forall i | 0 <= i < |lines| :: lines[i] != []
  }

  lemma {:induction false} RenderedAreNotEmpty(
    words: seq<Text>, start: nat, cuts: seq<nat>, perLine: nat, blank: bool)
    requires AllWords(words) && Legal(words, start, cuts, perLine)
    ensures NoneEmpty(Render(words, start, cuts, perLine, blank))
    decreases |cuts|
  {
    hide Spaced, Width, Pad;
    if cuts != [] {
      RenderedAreNotEmpty(words, cuts[0], cuts[1..], perLine, blank);
      LineNotEmpty(words, start, cuts[0]);
      Head(Spaced(words[start..cuts[0]]) + Pad(words, start, cuts[0], perLine, blank),
        Render(words, cuts[0], cuts[1..], perLine, blank));
    }
  }

  // ----- Optimality -----

  lemma {:induction false} LineEndIsLongest(words: seq<Text>, start: nat, end: nat, perLine: nat, other: nat)
    requires IsLine(words, start, end, perLine) && IsLine(words, start, other, perLine) && end <= other
    ensures other <= LineEnd(words, start, end, perLine)
    decreases |words| - end
  {
    if end < other {
      WidthGrows(words, start, end + 1, other);
      LineEndIsLongest(words, start, end + 1, perLine, other);
    }
  }

  lemma {:induction false} LegalBounds(words: seq<Text>, start: nat, cuts: seq<nat>, perLine: nat)
    requires Legal(words, start, cuts, perLine) && start <= |words|
    ensures start <= Last(start, cuts) <= |words|
    decreases |cuts|
  {
    if cuts != [] {
      LegalBounds(words, cuts[0], cuts[1..], perLine);
      assert Last(start, cuts) == Last(cuts[0], cuts[1..]);
    }
  }

  lemma LaterStartReachesFurther(words: seq<Text>, i: nat, j: nat, cut: nat, perLine: nat)
    requires i <= j < |words| && IsLine(words, i, cut, perLine)
    ensures cut <= LineEnd(words, j, j + 1, perLine)
  {
    if j < cut {
      WidthMonotone(words, i, j, cut);
      LineEndIsLongest(words, j, j + 1, perLine, cut);
    }
  }

  /** The greedy breaking stays ahead of any other that starts no later and uses no more lines. */
  lemma {:induction false} StaysAhead(words: seq<Text>, i: nat, j: nat, cuts: seq<nat>, perLine: nat, room: nat)
    requires i <= j <= |words|
    requires Legal(words, i, cuts, perLine) && |cuts| <= room
    ensures Last(i, cuts) <= Last(j, Greedy(words, j, perLine, room))
    decreases |cuts|
  {
    hide LineEnd;
    LegalBounds(words, i, cuts, perLine);
    if cuts != [] && j < |words| {
      var e := LineEnd(words, j, j + 1, perLine);
      LaterStartReachesFurther(words, i, j, cuts[0], perLine);
      StaysAhead(words, cuts[0], e, cuts[1..], perLine, room - 1);
      assert Last(i, cuts) == Last(cuts[0], cuts[1..]);
      LastStep(j, e, Greedy(words, e, perLine, room - 1));
    }
  }

  lemma LastStep(start: nat, cut: nat, cuts: seq<nat>)
    ensures Last(start, [cut] + cuts) == Last(cut, cuts)
  {}

  /** If some number of greedy lines shows every word, more room adds no lines. */
  lemma {:induction false} GreedyStops(words: seq<Text>, start: nat, perLine: nat, enough: nat, room: nat)
    requires start <= |words|
    requires Last(start, Greedy(words, start, perLine, enough)) == |words|
    ensures |Greedy(words, start, perLine, room)| <= enough
    decreases enough
  {
    hide LineEnd, Legal;
    if enough > 0 && room > 0 && start < |words| {
      var e := LineEnd(words, start, start + 1, perLine);
      LastStep(start, e, Greedy(words, e, perLine, enough - 1));
      GreedyStops(words, e, perLine, enough - 1, room - 1);
    }
  }

  /**
   * The greedy breaking is best: no legal breaking into at most `room` lines shows more words, and
   * none that shows them all uses fewer lines.
   */
  lemma GreedyIsOptimal(words: seq<Text>, perLine: nat, room: nat)
    ensures var cuts := Greedy(words, 0, perLine, room);
      && (forall other | Legal(words, 0, other, perLine) && |other| <= room :: Last(0, other) <= Last(0, cuts))
      && (forall other | Legal(words, 0, other, perLine) && Last(0, other) == |words| :: |cuts| <= |other|)
  {
    forall other | Legal(words, 0, other, perLine) && |other| <= room
      ensures Last(0, other) <= Last(0, Greedy(words, 0, perLine, room))
    {
      StaysAhead(words, 0, 0, other, perLine, room);
    }
    forall other | Legal(words, 0, other, perLine) && Last(0, other) == |words|
      ensures |Greedy(words, 0, perLine, room)| <= |other|
    {
      StaysAhead(words, 0, 0, other, perLine, |other|);
      GreedyStops(words, 0, perLine, |other|, room);
    }
  }

  /** One more line shows more, as long as words are left. */
  lemma {:induction false} MoreRoomShowsMore(words: seq<Text>, start: nat, perLine: nat, room: nat)
    requires start <= |words| && Last(start, Greedy(words, start, perLine, room)) < |words|
    ensures Last(start, Greedy(words, start, perLine, room)) < Last(start, Greedy(words, start, perLine, room + 1))
    decreases room
  {
    hide LineEnd, Legal;
    var e := LineEnd(words, start, start + 1, perLine);
    LastStep(start, e, Greedy(words, e, perLine, room));
    if room > 0 {
      LastStep(start, e, Greedy(words, e, perLine, room - 1));
      MoreRoomShowsMore(words, e, perLine, room - 1);
    }
  }

  /**
   * The loop shows as many words as any legal breaking could, except in one case: the first word is
   * too long for a line, which leaves the first line empty, and one line less cannot show every word.
   */
  lemma WrapIsOptimalIff(words: seq<Text>, perLine: nat, maxLines: nat)
    requires maxLines > 0
    ensures var shown := Last(0, Cuts(words, perLine, maxLines));
      (forall other | Legal(words, 0, other, perLine) && |other| <= maxLines :: Last(0, other) <= shown) <==>
      !(&& words != [] && |words[0]| > perLine
        && forall other | Legal(words, 0, other, perLine) && |other| < maxLines :: Last(0, other) != |words|)
  {
    hide Greedy, Legal;
    GreedyIsOptimal(words, perLine, maxLines);
    if Skipped(words, perLine) == 1 {
      var cuts := Cuts(words, perLine, maxLines);
      GreedyIsOptimal(words, perLine, maxLines - 1);
      if Last(0, cuts) < |words| {
        MoreRoomShowsMore(words, 0, perLine, maxLines - 1);
        var better := Greedy(words, 0, perLine, maxLines);
        assert Legal(words, 0, better, perLine) && |better| <= maxLines;
      } else {
        assert Legal(words, 0, cuts, perLine) && |cuts| < maxLines;
        forall other | Legal(words, 0, other, perLine) && |other| <= maxLines
          ensures Last(0, other) <= Last(0, cuts)
        {
          LegalBounds(words, 0, other, perLine);
        }
      }
    }
  }

  // ----- The ellipsis -----

  /** The white space kept at the end of the last line. */
  function EndPad(words: seq<Text>, start: nat, cuts: seq<nat>, perLine: nat, blank: bool): (pad: Text)
    ensures |pad| <= 1
  {
    if cuts == [] then [] else Pad(words, LastStart(start, cuts), Last(start, cuts), perLine, blank)
  }

  lemma LastOfMore(start: nat, cut: nat, cuts: seq<nat>)
    requires cuts != []
    ensures Last(start, [cut] + cuts) == Last(cut, cuts) && LastStart(start, [cut] + cuts) == LastStart(cut, cuts)
  {}

  lemma {:induction false} RenderedWidth(
    words: seq<Text>, start: nat, cuts: seq<nat>, perLine: nat, blank: bool)
    requires start <= |words| && Legal(words, start, cuts, perLine)
    ensures start <= Last(start, cuts) <= |words|
    ensures |Render(words, start, cuts, perLine, blank)| == |cuts|
    ensures |Spaced(Render(words, start, cuts, perLine, blank))|
      == Width(words, start, Last(start, cuts)) + |EndPad(words, start, cuts, perLine, blank)|
    decreases |cuts|
  {
    hide Width, Pad;
    LegalBounds(words, start, cuts, perLine);
    if cuts != [] {
      var cut, others := cuts[0], cuts[1..];
      var line := Spaced(words[start..cut]) + Pad(words, start, cut, perLine, blank);
      var lines := Render(words, cut, others, perLine, blank);
      Uncons(cuts);
      SpacedWidth(words, start, cut);
      RenderStep(words, start, cut, others, perLine, blank);
      if others == [] {
        assert [line] + lines == [line];
      } else {
        RenderedWidth(words, cut, others, perLine, blank);
        LastOfMore(start, cut, others);
        LegalBounds(words, others[0], others[1..], perLine);
        WidthJoins(words, start, cut, Last(cut, others));
        InnerLine(words, start, cut, perLine, blank);
        LineOnTop(line, lines);
        assert Last(cut, others) >= others[0] by { Uncons(others); }
      }
    } else {
      WidthOfNone(words, start);
    }
  }

  lemma LineOnTop(line: Text, lines: seq<Text>)
    ensures |Spaced([line] + lines)| == if lines == [] then |line| else |line| + 1 + |Spaced(lines)|
  {
    Head(line, lines);
    if lines == [] {
      assert [line] + lines == [line];
    }
  }

  lemma {:induction false} WidthJoins(words: seq<Text>, a: nat, b: nat, c: nat)
    requires a < b <= c <= |words|
    ensures b < c ==> Width(words, a, c) == Width(words, a, b) + 1 + Width(words, b, c)
    decreases c
  {
    if b + 1 < c { WidthJoins(words, a, b, c - 1); }
  }

  lemma DroppedIsWider(words: seq<Text>, shown: nat)
    requires shown < |words| && AllWords(words)
    ensures Width(words, 0, shown) < Width(words, 0, |words|)
    ensures shown > 0 ==> Width(words, 0, shown) + 1 < Width(words, 0, |words|)
  {
    WidthGrows(words, 0, shown + 1, |words|);
    WidthGrows(words, 0, 1, |words|);
  }

  lemma WidthOfNone(words: seq<Text>, a: nat)
    requires a <= |words|
    ensures Width(words, a, a) == 0
  {}

  lemma LegalShows(words: seq<Text>, cuts: seq<nat>, perLine: nat)
    requires Legal(words, 0, cuts, perLine)
    ensures cuts != [] ==> Last(0, cuts) > 0
  {
    if cuts != [] {
      LegalBounds(words, cuts[0], cuts[1..], perLine);
      Uncons(cuts);
      LastStep(0, cuts[0], cuts[1..]);
    }
  }

  lemma SpacedNone()
    ensures Spaced([]) == []
  {}

  lemma NoPadBeforeEnd(words: seq<Text>, start: nat, cuts: seq<nat>, perLine: nat, blank: bool)
    ensures Last(start, cuts) != |words| ==> EndPad(words, start, cuts, perLine, blank) == []
  {}

  /** A text is at least as long as its words with single spaces. */
  lemma {:induction false} TextLength(text: Text)
    ensures |text| >= |Spaced(WordsOf(text))|
    ensures text != [] && IsSpace(text[0]) && WordsOf(text) != [] ==> |text| > |Spaced(WordsOf(text))|
    decreases |text|
  {
    var k := SpaceRun(text);
    var rest := text[k..];
    if rest != [] {
      var n := WordRun(rest);
      WordsAfterSpace(text, k);
      WordFirst(rest);
      TextLength(rest[n..]);
      LineOnTop(rest[..n], WordsOf(rest[n..]));
    }
  }

  /**
   * When the ellipsis step runs, for every text: a word was dropped, or every line is used and the
   * text is longer than its words with single spaces, the empty first line and the kept space included.
   */
  lemma MarkedIff(text: Text, perLine: nat, maxLines: nat)
    requires maxLines > 0
    ensures var words := WordsOf(text);
      var cuts := Cuts(words, perLine, maxLines);
      Marked(text, Lines(Split(text), [], perLine, maxLines), maxLines) <==>
        || Last(0, cuts) < |words|
        || (&& Skipped(words, perLine) + |cuts| == maxLines
            && |text| > Skipped(words, perLine) + |Spaced(words)|
                 + |EndPad(words, 0, cuts, perLine, EndsBlank(text))|)
  {
    hide Lines, Split, Greedy, Render, Width, Spaced, EndPad, WordsOf;
    var words, blank := WordsOf(text), EndsBlank(text);
    var cuts := Cuts(words, perLine, maxLines);
    var lines := Render(words, 0, cuts, perLine, blank);
    WrapIsGreedy(text, perLine, maxLines);
    RenderedWidth(words, 0, cuts, perLine, blank);
    TextLength(text);
    SpacedWidth(words, 0, |words|);
    assert words[0..|words|] == words;
    LineOnTop([], lines);
    assert Blank(false) + lines == lines;
    WidthOfNone(words, 0);
    if Last(0, cuts) < |words| {
      DroppedIsWider(words, Last(0, cuts));
      NoPadBeforeEnd(words, 0, cuts, perLine, blank);
      SpacedNone();
      LegalShows(words, cuts, perLine);
    }
  }

  /**
   * Of single-spaced text the ellipsis marks exactly the dropping of a word, and a word is dropped
   * only if it must be, unless an overlong first word left the first line empty.
   */
  lemma EllipsisIffDropped(words: seq<Text>, perLine: nat, maxLines: nat)
    requires AllWords(words) && maxLines > 0
    ensures var lines := Lines(Split(Spaced(words)), [], perLine, maxLines);
      && (Marked(Spaced(words), lines, maxLines) <==> Last(0, Cuts(words, perLine, maxLines)) < |words|)
      && (Skipped(words, perLine) == 0 ==>
            (Marked(Spaced(words), lines, maxLines) <==>
               !exists other :: Legal(words, 0, other, perLine) && |other| <= maxLines && Last(0, other) == |words|))
  {
    hide Lines, Split, Greedy, Spaced, EndPad, WordsOf;
    SpacedWords(words);
    MarkedIff(Spaced(words), perLine, maxLines);
    GreedyIsOptimal(words, perLine, maxLines);
  }

  lemma {:induction false} WordRunStops(w: Text, rest: Text)
    requires IsWord(w) || w == []
    requires rest != [] ==> IsSpace(rest[0])
    ensures WordRun(w + rest) == |w|
  {
    if w == [] {
      assert w + rest == rest;
    } else {
      assert (w + rest)[1..] == w[1..] + rest;
      WordRunStops(w[1..], rest);
    }
  }

  lemma StartsWithWord(words: seq<Text>)
    requires words != [] && IsWord(words[0])
    ensures Spaced(words) != [] && !IsSpace(Spaced(words)[0])
  {}

  lemma {:induction false} SpacedWords(words: seq<Text>)
    requires AllWords(words)
    ensures WordsOf(Spaced(words)) == words
  {
    if words == [] {
      NoWords();
    } else {
      var text := Spaced(words);
      StartsWithWord(words);
      WordFirst(text);
      if |words| == 1 {
        WordRunStops(words[0], []);
        assert words[0] + [] == words[0];
        assert text[|words[0]|..] == [] && text[..|words[0]|] == words[0];
        NoWords();
      } else {
        var rest := Spaced(words[1..]);
        var tail := [SPACE] + rest;
        WordRunStops(words[0], tail);
        Rest(words[0], tail);
        Head(SPACE, rest);
        assert SpaceRun(tail) >= 1;
        WordsAfterSpace(tail, 1);
        SpacedWords(words[1..]);
        Uncons(words);
      }
    }
  }

  // ----- Lines longer than the limit -----

  /** The ellipsis made line `i` longer than the limit. */
  predicate Overflowed(lines: seq<Text>, marked: seq<Text>, perLine: nat) {
    |marked| == |lines| && exists i | 0 <= i < |lines| :: |lines[i]| <= perLine < |marked[i]|
  }

  lemma {:induction false} RenderLast(words: seq<Text>, start: nat, cuts: seq<nat>, perLine: nat, blank: bool)
    requires start <= |words| && Legal(words, start, cuts, perLine) && cuts != []
    ensures LastStart(start, cuts) < Last(start, cuts) <= |words|
    ensures var lines := Render(words, start, cuts, perLine, blank);
      && |lines| == |cuts|
      && lines[|lines| - 1] ==
           Spaced(words[LastStart(start, cuts)..Last(start, cuts)]) + EndPad(words, start, cuts, perLine, blank)
    decreases |cuts|
  {
    hide Width, Pad, Spaced;
    var cut, others := cuts[0], cuts[1..];
    Uncons(cuts);
    RenderStep(words, start, cut, others, perLine, blank);
    if others != [] {
      RenderLast(words, cut, others, perLine, blank);
      LastOfMore(start, cut, others);
    }
  }

  lemma LastUnit(words: seq<Text>, a: nat, b: nat)
    requires a < b <= |words| && AllWords(words)
    ensures var line := Spaced(words[a..b]);
      line != [] && line[|line| - 1] == words[b - 1][|words[b - 1]| - 1]
  {
    if b == a + 1 {
      SingleWord(words, a);
    } else {
      SpacedAppend(words[a..b - 1], words[b - 1]);
      assert words[a..b] == words[a..b - 1] + [words[b - 1]];
    }
  }

  /** The last line, with the space it keeps, is as long as a line may be. */
  predicate Full(words: seq<Text>, cuts: seq<nat>, perLine: nat, blank: bool) {
    if cuts == [] then perLine == 0
    else
      var a, b := LastStart(0, cuts), Last(0, cuts);
      a <= b <= |words| && Width(words, a, b) + |EndPad(words, 0, cuts, perLine, blank)| == perLine
  }

  /**
   * For every text, the ellipsis pushes a line over the limit in one case only: it is added, the
   * last line was full, and it did not end in punctuation the ellipsis could replace.
   */
  lemma OverflowIff(text: Text, perLine: nat, maxLines: nat)
    requires maxLines > 0
    ensures var words, blank := WordsOf(text), EndsBlank(text);
      var cuts := Cuts(words, perLine, maxLines);
      var pad := EndPad(words, 0, cuts, perLine, blank);
      var lines := Lines(Split(text), [], perLine, maxLines);
      Overflowed(lines, Mark(text, lines, maxLines), perLine) <==>
        && Marked(text, lines, maxLines) && Full(words, cuts, perLine, blank)
        && (cuts == [] || pad != [] || !EndsInPunctuation(words[Last(0, cuts) - 1]))
  {
    hide Lines, Split, Greedy, Render, Width, Spaced, EndPad, WordsOf, EndsInPunctuation, Mark, Overflowed;
    var words, blank := WordsOf(text), EndsBlank(text);
    var lines := Lines(Split(text), [], perLine, maxLines);
    WrapIsGreedy(text, perLine, maxLines);
    OnlyLastChanges(text, lines, perLine, maxLines);
    if Marked(text, lines, maxLines) {
      LastLineIs(words, Cuts(words, perLine, maxLines), perLine, blank, Skipped(words, perLine) == 1, lines);
    }
  }

  /** How long the last line is, and whether it ends in punctuation. */
  lemma LastLineIs(
    words: seq<Text>, cuts: seq<nat>, perLine: nat, blank: bool, skipped: bool, lines: seq<Text>)
    requires AllWords(words) && Legal(words, 0, cuts, perLine) && lines != []
    requires lines == Blank(skipped) + Render(words, 0, cuts, perLine, blank)
    ensures var last, pad := lines[|lines| - 1], EndPad(words, 0, cuts, perLine, blank);
      if cuts == [] then last == [] && !EndsInPunctuation(last)
      else
        && 0 < Last(0, cuts) <= |words| && LastStart(0, cuts) <= Last(0, cuts)
        && |last| == Width(words, LastStart(0, cuts), Last(0, cuts)) + |pad|
        && (EndsInPunctuation(last) <==> pad == [] && EndsInPunctuation(words[Last(0, cuts) - 1]))
  {
    hide Width, Spaced, Pad;
    var rendered := Render(words, 0, cuts, perLine, blank);
    var pad := EndPad(words, 0, cuts, perLine, blank);
    if cuts != [] {
      RenderLast(words, 0, cuts, perLine, blank);
      var a, b := LastStart(0, cuts), Last(0, cuts);
      var body := Spaced(words[a..b]);
      assert lines[|lines| - 1] == body + pad;
      SpacedWidth(words, a, b);
      LastUnit(words, a, b);
      PadIsSpace(words, a, b, perLine, blank);
      if pad == [] {
        assert body + pad == body;
      }
    }
  }

  lemma PadIsSpace(words: seq<Text>, a: nat, b: nat, perLine: nat, blank: bool)
    ensures var pad := Pad(words, a, b, perLine, blank); pad == [] || pad == [SPACE]
  {}

  lemma OnlyLastChanges(text: Text, lines: seq<Text>, perLine: nat, maxLines: nat)
    requires maxLines > 0 && |lines| <= maxLines
    ensures Overflowed(lines, Mark(text, lines, maxLines), perLine) <==>
      Marked(text, lines, maxLines) &&
      |lines[maxLines - 1]| == perLine && !EndsInPunctuation(lines[maxLines - 1])
  {
    if Marked(text, lines, maxLines) {
      var marked := Mark(text, lines, maxLines);
      assert marked[maxLines - 1] == Elide(lines[maxLines - 1]);
      assert forall i | 0 <= i < maxLines - 1 :: marked[i] == lines[i];
    }
  }

  // ----- The card's own messages -----

  /** The only limits the card wraps to. */
  const PER_LINE: nat := 46
  const MAX_LINES: nat := 3

  const MAX_MESSAGE: nat := 500

  /** What reaches the card: a message of bounded length, trimmed, and not empty. */
  predicate IsMessage(text: Text) {
    text != [] && |text| <= MAX_MESSAGE && !StartsBlank(text) && !EndsBlank(text)
  }

  function CardLines(message: Text): seq<Text> {
    Lines(Split(message), [], PER_LINE, MAX_LINES)
  }

  /**
   * Of a message the card marks exactly one that loses a word, or that uses all three lines and has
   * white space between its words to spare, one unit of it if the first line is empty.
   */
  lemma CardMarkedIff(message: Text)
    requires IsMessage(message)
    ensures var words := WordsOf(message);
      var cuts := Cuts(words, PER_LINE, MAX_LINES);
      Marked(message, CardLines(message), MAX_LINES) <==>
        || Last(0, cuts) < |words|
        || (&& Skipped(words, PER_LINE) + |cuts| == MAX_LINES
            && |message| > Skipped(words, PER_LINE) + |Spaced(words)|)
  {
    hide Lines, Split, Greedy, Spaced, WordsOf;
    MarkedIff(message, PER_LINE, MAX_LINES);
  }

  function Letters(n: nat): Text {
    seq(n, _ => 'a' as int)
  }

  lemma LettersAreAWord(n: nat)
    requires n > 0
    ensures IsWord(Letters(n)) && |Letters(n)| == n && !IsPunctuation(Letters(n)[n - 1])
  {}

  /** Splitting single-spaced text gives its words back. */
  lemma SplitSpaced(words: seq<Text>)
    requires words != [] && AllWords(words)
    ensures Split(Spaced(words)) == words && !StartsBlank(Spaced(words)) && !EndsBlank(Spaced(words))
  {
    hide Split, WordsOf, Spaced;
    SplitShape(Spaced(words));
    SpacedWords(words);
    StartsWithWord(words);
    LastUnit(words, 0, |words|);
    assert words[0..|words|] == words;
  }

  /** Words of which no two fit on a line get a line each. */
  lemma {:induction false} OneWordALine(words: seq<Text>, k: nat, perLine: nat, room: nat)
    requires k < |words| && AllWords(words) && k + room <= |words|
    requires forall i | 0 <= i < |words| - 1 :: |words[i]| + 1 + |words[i + 1]| > perLine
    ensures Lines(words[k + 1..], words[k], perLine, room) == words[k..k + room]
    decreases room
  {
    hide Lines;
    if room == 0 {
      NoRoom(words[k + 1..], words[k], perLine);
    } else if k + 1 == |words| {
      LinesEnd(words, k + 1, words[k], perLine, room);
    } else {
      LinesStep(words, k + 1, words[k], perLine, room);
      OneWordALine(words, k + 1, perLine, room - 1);
    }
  }

  /** The lines of such a message: its first words, after an empty line if the first is too long. */
  lemma LinesOfBigWords(words: seq<Text>)
    requires |words| >= MAX_LINES && AllWords(words)
    requires forall i | 0 <= i < |words| - 1 :: |words[i]| + 1 + |words[i + 1]| > PER_LINE
    ensures Lines(words, [], PER_LINE, MAX_LINES) ==
      if |words[0]| <= PER_LINE then words[..3] else [[]] + words[..2]
  {
    hide Lines;
    assert words[0..] == words;
    LinesStep(words, 0, [], PER_LINE, MAX_LINES);
    OneWordALine(words, 0, PER_LINE, if |words[0]| <= PER_LINE then 3 else 2);
  }

  lemma CardOfBigWords(message: Text, words: seq<Text>)
    requires |words| >= MAX_LINES && AllWords(words) && Split(message) == words
    requires forall i | 0 <= i < |words| - 1 :: |words[i]| + 1 + |words[i + 1]| > PER_LINE
    ensures CardLines(message) == if |words[0]| <= PER_LINE then words[..3] else [[]] + words[..2]
  {
    hide Lines, Split;
    LinesOfBigWords(words);
  }

  lemma MarkOfThree(message: Text, a: Text, b: Text, c: Text)
    requires c != [] && !IsPunctuation(c[|c| - 1]) && |message| > |a| + 1 + (|b| + 1 + |c|)
    ensures Mark(message, [a, b, c], MAX_LINES) == [a, b, c + [ELLIPSIS]]
  {
    LengthOfThree(a, b, c);
    assert [a, b, c][2 := c + [ELLIPSIS]] == [a, b, c + [ELLIPSIS]];
  }

  lemma LengthOfThree(a: Text, b: Text, c: Text)
    ensures |Spaced([a, b, c])| == |a| + 1 + (|b| + 1 + |c|)
  {
    hide Spaced;
    LineOnTop(a, [b, c]);
    LineOnTop(b, [c]);
    LineOnTop(c, []);
    assert [a] + [b, c] == [a, b, c] && [b] + [c] == [b, c] && [c] + [] == [c];
  }

  /** Four words of 46 letters: the third line is marked, and is then one character too long. */
  lemma EllipsisOverflows()
    ensures var w := Letters(46);
      var message := Spaced([w, w, w, w]);
      && IsMessage(message) && CardLines(message) == [w, w, w]
      && Mark(message, [w, w, w], MAX_LINES) == [w, w, w + [ELLIPSIS]] && |w + [ELLIPSIS]| == PER_LINE + 1
  {
    hide Letters, Spaced, Split, CardLines, IsWord, StartsBlank, EndsBlank, Mark, IsPunctuation;
    var w := Letters(46);
    var words := [w, w, w, w];
    LettersAreAWord(46);
    SplitSpaced(words);
    CardOfBigWords(Spaced(words), words);
    LineOnTop(w, [w, w, w]);
    LengthOfThree(w, w, w);
    assert [w] + [w, w, w] == words && words[..3] == [w, w, w];
    MarkOfThree(Spaced(words), w, w, w);
  }

  lemma TwoSpaces(rest: Text)
    ensures WordsOf([SPACE] + ([SPACE] + rest)) == WordsOf(rest)
  {
    hide WordsOf;
    var gap := [SPACE] + ([SPACE] + rest);
    Head(SPACE, [SPACE] + rest);
    Head(SPACE, rest);
    WordsAfterSpace(gap, 2);
    assert gap[2..] == rest;
  }

  /** A first word before a gap. */
  lemma WordBeforeGap(w: Text, gap: Text)
    requires IsWord(w) && gap != [] && IsSpace(gap[0])
    ensures WordsOf(w + gap) == [w] + WordsOf(gap)
  {
    hide WordsOf;
    WordRunStops(w, gap);
    WordFirst(w + gap);
    Rest(w, gap);
  }

  /** A message of more than one space between some words splits into its words all the same. */
  lemma SplitTrimmed(text: Text)
    requires !StartsBlank(text) && !EndsBlank(text)
    ensures Split(text) == WordsOf(text)
  {
    hide Split, WordsOf;
    SplitShape(text);
  }

  lemma EndsOfConcat(a: Text, b: Text, c: Text)
    requires a != [] && c != [] && !IsSpace(a[0]) && !IsSpace(c[|c| - 1])
    ensures !StartsBlank(a + (b + c)) && !EndsBlank(a + (b + c))
  {
    var t := a + (b + c);
    assert t[0] == a[0] && t[|t| - 1] == c[|c| - 1];
  }

  /** Three words of 30 letters with two spaces after the first: an ellipsis, though no word is missing. */
  lemma EllipsisForNoWord()
    ensures var w := Letters(30);
      var message := w + ([SPACE, SPACE] + Spaced([w, w]));
      && IsMessage(message) && WordsOf(message) == [w, w, w] == CardLines(message)
      && Mark(message, [w, w, w], MAX_LINES) == [w, w, w + [ELLIPSIS]]
  {
    hide Letters, Spaced, Split, WordsOf, CardLines, StartsBlank, EndsBlank, Mark, IsPunctuation;
    var w := Letters(30);
    var rest := Spaced([w, w]);
    var spaces := [SPACE, SPACE];
    var gap := spaces + rest;
    LettersAreAWord(30);
    SpacedWords([w, w]);
    SplitSpaced([w, w]);
    LineOnTop(w, [w]);
    LineOnTop(w, []);
    assert [w] + [w] == [w, w] && [w] + [] == [w];
    assert gap == [SPACE] + ([SPACE] + rest);
    TwoSpaces(rest);
    WordBeforeGap(w, gap);
    assert [w] + [w, w] == [w, w, w] && [w, w, w][..3] == [w, w, w];
    LastUnit([w, w], 0, 2);
    assert [w, w][0..2] == [w, w];
    EndsOfConcat(w, spaces, rest);
    SplitTrimmed(w + gap);
    CardOfBigWords(w + gap, [w, w, w]);
    MarkOfThree(w + gap, w, w, w);
  }

  /** Words of 47, 30 and 30 letters: the first line stays empty, and a word that had room is dropped. */
  lemma OverlongFirstWordWastesALine()
    ensures var first, w := Letters(47), Letters(30);
      var words := [first, w, w];
      && IsMessage(Spaced(words)) && CardLines(Spaced(words)) == [[], first, w]
      && Legal(words, 0, [1, 2, 3], PER_LINE) && Last(0, [1, 2, 3]) == |words| && |[1, 2, 3]| == MAX_LINES
  {
    hide Letters, Spaced, Split, CardLines, IsWord, StartsBlank, EndsBlank;
    var first, w := Letters(47), Letters(30);
    var words := [first, w, w];
    LettersAreAWord(47);
    LettersAreAWord(30);
    SplitSpaced(words);
    CardOfBigWords(Spaced(words), words);
    LengthOfThree(first, w, w);
    assert [[]] + words[..2] == [[], first, w];
    assert [1, 2, 3][1..] == [2, 3] && [2, 3][1..] == [3] && [3][1..] == [];
  }
}
