/** The QR symbol as SVG path data: one rectangle per horizontal run of dark modules. */
module QrPath {
  import opened Texts
  import opened Decimals
  import opened JsonText

  /** The unit-height rectangle of `run` modules starting at `column` of `row`. */
  datatype Rect = Rect(column: nat, row: nat, run: nat)

  /** `isDark(row, column)` for a square symbol. */
  type Matrix = seq<seq<bool>>

  predicate Square(m: Matrix) { forall r | 0 <= r < |m| :: |m[r]| == |m| }

  predicate Dark(m: Matrix, row: int, column: int) {
    0 <= row < |m| && 0 <= column < |m[row]| && m[row][column]
  }

  predicate Covers(rect: Rect, row: int, column: int) {
    rect.row == row && rect.column <= column < rect.column + rect.run
  }

  /** A non-empty run of dark modules that light modules or the border end on both sides. */
  ghost predicate MaximalRun(m: Matrix, rect: Rect) {
    && rect.run > 0
    && (forall c | rect.column <= c < rect.column + rect.run :: Dark(m, rect.row, c))
    && !Dark(m, rect.row, rect.column - 1)
    && !Dark(m, rect.row, rect.column + rect.run)
  }

  /** Drawing order: row by row, left to right, at least one light module apart. */
  predicate Before(a: Rect, b: Rect) {
    a.row < b.row || (a.row == b.row && a.column + a.run < b.column)
  }

  ghost predicate InOrder(rects: seq<Rect>) {
    forall i, j | 0 <= i < j < |rects| :: Before(rects[i], rects[j])
  }

  /** Exactly the maximal runs of the symbol, each once, in drawing order. */
  ghost predicate IsRunDecomposition(m: Matrix, rects: seq<Rect>) {
    && InOrder(rects)
    && (forall i | 0 <= i < |rects| :: MaximalRun(m, rects[i]))
    && forall r, c | Dark(m, r, c) :: CoveredBy(rects, r, c)
  }

  ghost predicate CoveredBy(rects: seq<Rect>, row: int, column: int) {
    exists i | 0 <= i < |rects| :: Covers(rects[i], row, column)
  }

  // ----- The path text -----

  const M: CodeUnit := 'M' as int
  const H: CodeUnit := 'h' as int
  const V: CodeUnit := 'v' as int
  const Z: CodeUnit := 'z' as int

  /** `M${column} ${row}h${run}v1h-${run}z`. */
  function RectText(rect: Rect): Text {
    MoveText(rect.column, rect.row) + (LineText(H, rect.run) + (LineText(V, 1) + (LineText(H, Back(rect.run)) + [Z])))
  }

  /** The way back along a run. */
  function Back(run: nat): int {
    var length: int := run;
    -length
  }

  function MoveText(x: nat, y: nat): Text {
    [M] + (PrintNat(x) + ([SPACE] + PrintNat(y)))
  }

  function LineText(letter: CodeUnit, delta: int): Text {
    [letter] + PrintInt(delta)
  }

  /** `M`, the column, a space, the row, `h`, the run, `v1h-`, the run and `z`. */
  function SpelledRect(x: Text, y: Text, run: Text): Text {
    Ascii("M") + (x + (Ascii(" ") + (y + (Ascii("h") + (run + (Ascii("v1h-") + (run + Ascii("z"))))))))
  }

  /** The text of a rectangle, with plain numerals. */
  lemma RectTextIs(rect: Rect) returns (x: Text, y: Text, run: Text)
    ensures IsNumeral(x) && PlaceValue(x, 0, 0) == rect.column
    ensures IsNumeral(y) && PlaceValue(y, 0, 0) == rect.row
    ensures IsNumeral(run) && PlaceValue(run, 0, 0) == rect.run
    ensures rect.run > 0 ==> RectText(rect) == SpelledRect(x, y, run)
  {
    hide PrintNat, PlaceValue, IsNumeral;
    x, y, run := PrintNat(rect.column), PrintNat(rect.row), PrintNat(rect.run);
    NaturalTextIs(rect.column);
    NaturalTextIs(rect.row);
    NaturalTextIs(rect.run);
    if rect.run > 0 {
      var back := [MINUS] + run;
      OneIsOne();
      Letters();
      SpelledIs(x, y, run);
      RegroupRect(x, y, run, [V] + ['1' as int], [H] + back);
      assert LineText(H, Back(rect.run)) == [H] + back;
    }
  }

  lemma Letters()
    ensures Ascii("M") == [M] && Ascii(" ") == [SPACE] && Ascii("h") == [H] && Ascii("z") == [Z]
    ensures Ascii("v1h-") == ([V] + ['1' as int]) + ([H] + [MINUS])
  {}

  lemma SpelledIs(x: Text, y: Text, run: Text)
    ensures SpelledRect(x, y, run) ==
      [M] + (x + ([SPACE] + (y + ([H] + (run + ((([V] + ['1' as int]) + ([H] + [MINUS])) + (run + [Z])))))))
  {
    Letters();
  }

  lemma RegroupRect(x: Text, y: Text, run: Text, down: Text, back: Text)
    requires back == [H] + ([MINUS] + run)
    ensures ([M] + (x + ([SPACE] + y))) + (([H] + run) + (down + (back + [Z]))) ==
      [M] + (x + ([SPACE] + (y + ([H] + (run + ((down + ([H] + [MINUS])) + (run + [Z])))))))
  {
    var end := ([H] + run) + (down + (back + [Z]));
    Assoc([M], x + ([SPACE] + y), end);
    Assoc(x, [SPACE] + y, end);
    Assoc([SPACE], y, end);
    Assoc([H], run, down + (back + [Z]));
    Assoc([H], [MINUS] + run, [Z]);
    Assoc([MINUS], run, [Z]);
    Assoc(down, [H] + [MINUS], run + [Z]);
    Assoc([H], [MINUS], run + [Z]);
  }

  lemma OneIsOne()
    ensures PrintInt(1) == ['1' as int]
  {}

  function RectTexts(rects: seq<Rect>): (parts: seq<Text>)
    ensures |parts| == |rects| && forall i | 0 <= i < |rects| :: parts[i] == RectText(rects[i])
  {
    seq(|rects|, i requires 0 <= i < |rects| => RectText(rects[i]))
  }

  /** `parts.join('')`. */
  function Concat(parts: seq<Text>): Text {
    if parts == [] then [] else parts[0] + Concat(parts[1..])
  }

  function PathText(rects: seq<Rect>): Text {
    Concat(RectTexts(rects))
  }

  /** Every dark module before position (row, column), in reading order, is covered. */
  ghost predicate CoveredUpTo(m: Matrix, rects: seq<Rect>, row: int, column: int) {
    forall r, c | Dark(m, r, c) && (r < row || (r == row && c < column)) :: CoveredBy(rects, r, c)
  }

  /** Every rectangle so far ends before position (row, column). */
  ghost predicate EndsBefore(rects: seq<Rect>, row: int, column: int) {
    forall i | 0 <= i < |rects| ::
      rects[i].row < row || (rects[i].row == row && rects[i].column + rects[i].run <= column)
  }

  ghost predicate RunsSoFar(m: Matrix, rects: seq<Rect>, row: int, column: int) {
    && InOrder(rects)
    && (forall i | 0 <= i < |rects| :: MaximalRun(m, rects[i]))
    && CoveredUpTo(m, rects, row, column)
    && EndsBefore(rects, row, column)
  }

  lemma SkipLight(m: Matrix, rects: seq<Rect>, row: nat, column: nat)
    requires RunsSoFar(m, rects, row, column) && !Dark(m, row, column)
    ensures RunsSoFar(m, rects, row, column + 1)
  {
    forall r, c | Dark(m, r, c) && (r < row || (r == row && c < column + 1))
      ensures CoveredBy(rects, r, c)
    {}
  }

  lemma AfterRunIsLight(m: Matrix, rects: seq<Rect>, row: nat, column: nat)
    requires RunsSoFar(m, rects, row, column) && Dark(m, row, column - 1)
    ensures !Dark(m, row, column)
  {
    assert CoveredBy(rects, row, column - 1);
    var i :| 0 <= i < |rects| && Covers(rects[i], row, column - 1);
    assert MaximalRun(m, rects[i]);
    assert rects[i].column + rects[i].run == column;
  }

  /** A run ends at a light module, so a dark module at the scan position starts a new one. */
  lemma AddRun(m: Matrix, rects: seq<Rect>, row: nat, column: nat, run: nat)
    requires RunsSoFar(m, rects, row, column) && run > 0
    requires forall c | column <= c < column + run :: Dark(m, row, c)
    requires !Dark(m, row, column + run)
    ensures RunsSoFar(m, rects + [Rect(column, row, run)], row, column + run)
  {
    var rect := Rect(column, row, run);
    var all := rects + [rect];
    if Dark(m, row, column - 1) {
      AfterRunIsLight(m, rects, row, column);
    }
    forall i | 0 <= i < |rects|
      ensures Before(rects[i], rect)
    {
      if rects[i].row == row {
        assert MaximalRun(m, rects[i]);
        assert rects[i].column + rects[i].run != column;
      }
    }
    forall r, c | Dark(m, r, c) && (r < row || (r == row && c < column + run))
      ensures CoveredBy(all, r, c)
    {
      if r == row && column <= c {
        assert all[|rects|] == rect && Covers(rect, r, c);
      } else {
        assert CoveredBy(rects, r, c);
        var i :| 0 <= i < |rects| && Covers(rects[i], r, c);
        assert all[i] == rects[i];
      }
    }
  }

  lemma NextRow(m: Matrix, rects: seq<Rect>, row: nat)
    requires Square(m) && row < |m| && RunsSoFar(m, rects, row, |m|)
    ensures RunsSoFar(m, rects, row + 1, 0)
  {
    forall r, c | Dark(m, r, c) && r < row + 1
      ensures CoveredBy(rects, r, c)
    {}
  }

  method RunLengthPath(m: Matrix) returns (path: Text, ghost rects: seq<Rect>)
    requires Square(m)
    ensures IsRunDecomposition(m, rects) && path == PathText(rects)
    ensures ReadPath(path).Some?
    ensures forall row, column :: Painted(ReadPath(path).value, row, column) <==> Dark(m, row, column)
  {
    var modules := |m|;
    var parts: seq<Text> := [];
    rects := [];
    var row := 0;
    while row < modules
      invariant 0 <= row <= modules
      invariant RunsSoFar(m, rects, row, 0) && parts == RectTexts(rects)
    {
      var column := 0;
      while column < modules
        invariant 0 <= column <= modules
        invariant RunsSoFar(m, rects, row, column) && parts == RectTexts(rects)
      {
        if !m[row][column] {
          SkipLight(m, rects, row, column);
          column := column + 1;
          continue;
        }
        var run := 1;
        while column + run < modules && m[row][column + run]
          invariant 1 <= run && column + run <= modules
          invariant forall c | column <= c < column + run :: Dark(m, row, c)
        {
          run := run + 1;
        }
        AddRun(m, rects, row, column, run);
        parts := parts + [RectText(Rect(column, row, run))];
        rects := rects + [Rect(column, row, run)];
        column := column + (run - 1);
        column := column + 1; // the for loop's own step
      }
      NextRow(m, rects, row);
      row := row + 1;
    }
    path := Concat(parts);
    PathPaintsSymbol(m, rects);
  }

  // ----- Exact cover -----

  /** How many rectangles cover a module. */
  function CoverCount(rects: seq<Rect>, row: int, column: int): int {
    if rects == [] then 0
    else (if Covers(rects[0], row, column) then 1 else 0) + CoverCount(rects[1..], row, column)
  }

  lemma InOrderTail(rects: seq<Rect>)
    requires InOrder(rects) && rects != []
    ensures InOrder(rects[1..])
    ensures forall i | 0 <= i < |rects[1..]| :: Before(rects[0], rects[1..][i])
  {
    var tail := rects[1..];
    assert forall i | 0 <= i < |tail| :: tail[i] == rects[i + 1];
  }

  lemma CoveredByHeadOrTail(rects: seq<Rect>, row: int, column: int)
    requires rects != []
    ensures CoveredBy(rects, row, column) <==> Covers(rects[0], row, column) || CoveredBy(rects[1..], row, column)
  {
    var tail := rects[1..];
    assert forall i | 0 <= i < |tail| :: tail[i] == rects[i + 1];
    if CoveredBy(rects, row, column) && !Covers(rects[0], row, column) {
      var i :| 0 <= i < |rects| && Covers(rects[i], row, column);
      assert Covers(tail[i - 1], row, column);
    }
  }

  lemma {:induction false} CoverCountIs(rects: seq<Rect>, row: int, column: int)
    requires InOrder(rects)
    ensures CoverCount(rects, row, column) == if CoveredBy(rects, row, column) then 1 else 0
  {
    if rects != [] {
      InOrderTail(rects);
      CoveredByHeadOrTail(rects, row, column);
      CoverCountIs(rects[1..], row, column);
    }
  }

  /** Every dark module lies in exactly one rectangle, every light module in none. */
  lemma ExactCover(m: Matrix, rects: seq<Rect>, row: int, column: int)
    requires IsRunDecomposition(m, rects)
    ensures CoverCount(rects, row, column) == if Dark(m, row, column) then 1 else 0
  {
    CoverCountIs(rects, row, column);
    if CoveredBy(rects, row, column) {
      var i :| 0 <= i < |rects| && Covers(rects[i], row, column);
      assert MaximalRun(m, rects[i]);
    }
  }

  // ----- Fewest rectangles -----

  function Starts(rects: seq<Rect>): set<(nat, nat)> {
    if rects == [] then {} else {(rects[0].row, rects[0].column)} + Starts(rects[1..])
  }

  lemma {:induction false} StartsCount(rects: seq<Rect>)
    ensures |Starts(rects)| <= |rects|
  {
    if rects != [] { StartsCount(rects[1..]); }
  }

  lemma {:induction false} StartsMember(rects: seq<Rect>, i: nat)
    requires i < |rects|
    ensures (rects[i].row, rects[i].column) in Starts(rects)
  {
    if i > 0 { StartsMember(rects[1..], i - 1); }
  }

  lemma {:induction false} StartsOrigin(rects: seq<Rect>, start: (nat, nat)) returns (i: nat)
    requires start in Starts(rects)
    ensures i < |rects| && (rects[i].row, rects[i].column) == start
  {
    if start == (rects[0].row, rects[0].column) {
      i := 0;
    } else {
      i := StartsOrigin(rects[1..], start);
      i := i + 1;
    }
  }

  lemma {:induction false} StartsLater(rect: Rect, rects: seq<Rect>)
    requires forall i | 0 <= i < |rects| :: Before(rect, rects[i])
    ensures (rect.row, rect.column) !in Starts(rects)
  {
    if rects != [] {
      assert Before(rect, rects[0]);
      StartsLater(rect, rects[1..]);
    }
  }

  lemma {:induction false} StartsDistinct(rects: seq<Rect>)
    requires InOrder(rects)
    ensures |Starts(rects)| == |rects|
  {
    if rects != [] {
      InOrderTail(rects);
      StartsDistinct(rects[1..]);
      StartsLater(rects[0], rects[1..]);
    }
  }

  /** Horizontal runs that together cover every dark module and no light one. */
  ghost predicate IsRunCover(m: Matrix, others: seq<Rect>) {
    && (forall i, c | 0 <= i < |others| && Covers(others[i], others[i].row, c) :: Dark(m, others[i].row, c))
    && forall r, c | Dark(m, r, c) :: CoveredBy(others, r, c)
  }

  lemma StartIsShared(m: Matrix, rect: Rect, others: seq<Rect>)
    requires MaximalRun(m, rect) && IsRunCover(m, others)
    ensures (rect.row, rect.column) in Starts(others)
  {
    assert Dark(m, rect.row, rect.column);
    var i :| 0 <= i < |others| && Covers(others[i], rect.row, rect.column);
    var other := others[i];
    assert forall c :: Covers(other, other.row, c) ==> Dark(m, other.row, c);
    StartsMember(others, i);
  }

  /** No other way to draw the symbol in horizontal runs, overlapping or not, uses fewer. */
  lemma FewestRuns(m: Matrix, rects: seq<Rect>, others: seq<Rect>)
    requires IsRunDecomposition(m, rects) && IsRunCover(m, others)
    ensures |rects| <= |others|
  {
    forall start | start in Starts(rects)
      ensures start in Starts(others)
    {
      var i := StartsOrigin(rects, start);
      StartIsShared(m, rects[i], others);
    }
    StartsDistinct(rects);
    StartsCount(others);
    SubsetSize(Starts(rects), Starts(others));
  }

  lemma {:induction false} SubsetSize<T>(a: set<T>, b: set<T>)
    requires a <= b
    ensures |a| <= |b|
  {
    if a != {} {
      var x :| x in a;
      SubsetSize(a - {x}, b - {x});
    }
  }

  // ----- Reading the path back: the commands used, in the grammar of section 9.3 of SVG 2 -----

  datatype Command = MoveTo(x: int, y: int) | Horizontal(delta: int) | Vertical(delta: int) | Close

  function ReadSigned(t: Text): (r: Option<(int, Text)>)
    ensures r.Some? ==> |r.value.1| < |t|
  {
    if t != [] && t[0] == MINUS then
      var n := DigitRun(t[1..]);
      var magnitude: int := ReadNat(t[1..][..n]);
      if n == 0 then None else Some((-magnitude, t[1..][n..]))
    else
      var n := DigitRun(t);
      var magnitude: int := ReadNat(t[..n]);
      if n == 0 then None else Some((magnitude, t[n..]))
  }

  function ReadCommand(t: Text): (r: Option<(Command, Text)>)
    requires t != []
    ensures r.Some? ==> |r.value.1| < |t|
  {
    if t[0] == Z then Some((Close, t[1..]))
    else match ReadSigned(t[1..])
      case None => None
      case Some((a, rest)) =>
        if t[0] == H then Some((Horizontal(a), rest))
        else if t[0] == V then Some((Vertical(a), rest))
        else if t[0] == M && rest != [] && rest[0] == SPACE then
          match ReadSigned(rest[1..])
          case Some((b, after)) => Some((MoveTo(a, b), after))
          case None => None
        else None
  }

  function ReadPath(t: Text): Option<seq<Command>>
    decreases |t|
  {
    if t == [] then Some([])
    else match ReadCommand(t)
      case None => None
      case Some((command, rest)) =>
        match ReadPath(rest)
        case None => None
        case Some(commands) => Some([command] + commands)
  }

  /** How often the outline winds around the centre of a module: crossings to its left, signed. */
  function Winding(commands: seq<Command>, x: int, y: int, startX: int, startY: int, row: int, column: int): int
    decreases |commands|
  {
    if commands == [] then 0
    else
      var rest := commands[1..];
      match commands[0]
      case MoveTo(a, b) => Winding(rest, a, b, a, b, row, column)
      case Horizontal(delta) => Winding(rest, x + delta, y, startX, startY, row, column)
      case Vertical(delta) =>
        Crossing(x, y, y + delta, row, column) + Winding(rest, x, y + delta, startX, startY, row, column)
      case Close =>
        Crossing(startX, y, startY, row, column) + Winding(rest, startX, startY, startX, startY, row, column)
  }

  function Crossing(x: int, from: int, to: int, row: int, column: int): int {
    if x > column then 0 else if from <= row < to then 1 else if to <= row < from then -1 else 0
  }

  /** The fill of a path, under the non-zero rule. */
  predicate Painted(commands: seq<Command>, row: int, column: int) {
    Winding(commands, 0, 0, 0, 0, row, column) != 0
  }

  lemma ReadPrintedSigned(n: int, rest: Text)
    requires rest != [] ==> !IsDigit(rest[0])
    ensures ReadSigned(PrintInt(n) + rest) == Some((n, rest))
  {
    if n < 0 {
      ReadPrintNat(-n);
      Assoc([MINUS], PrintNat(-n), rest);
      Head(MINUS, PrintNat(-n) + rest);
      DigitRunStops(PrintNat(-n), rest);
    } else {
      ReadPrintNat(n);
      IndexLeft(PrintNat(n), rest, 0);
      DigitRunStops(PrintNat(n), rest);
    }
  }

  lemma ReadLineCommand(letter: CodeUnit, delta: int, rest: Text)
    requires letter == H || letter == V
    requires rest != [] ==> !IsDigit(rest[0])
    ensures LineText(letter, delta) + rest != []
    ensures ReadCommand(LineText(letter, delta) + rest) ==
      Some((if letter == H then Horizontal(delta) else Vertical(delta), rest))
  {
    Assoc([letter], PrintInt(delta), rest);
    Head(letter, PrintInt(delta) + rest);
    ReadPrintedSigned(delta, rest);
  }

  lemma ReadMoveCommand(x: nat, y: nat, rest: Text)
    requires rest != [] ==> !IsDigit(rest[0])
    ensures MoveText(x, y) + rest != []
    ensures ReadCommand(MoveText(x, y) + rest) == Some((MoveTo(x, y), rest))
  {
    var tail := [SPACE] + (PrintNat(y) + rest);
    Assoc([M], PrintNat(x) + ([SPACE] + PrintNat(y)), rest);
    Regroup(PrintNat(x), SPACE, PrintNat(y), rest);
    Head(M, PrintNat(x) + tail);
    Head(SPACE, PrintNat(y) + rest);
    ReadPrintedSigned(x, tail);
    ReadPrintedSigned(y, rest);
  }

  function RectCommands(rect: Rect): seq<Command> {
    [MoveTo(rect.column, rect.row)]
      + ([Horizontal(rect.run)] + ([Vertical(1)] + ([Horizontal(Back(rect.run))] + [Close])))
  }

  function PathCommands(rects: seq<Rect>): seq<Command> {
    if rects == [] then [] else RectCommands(rects[0]) + PathCommands(rects[1..])
  }

  lemma ReadStep(t: Text, command: Command, rest: Text, commands: seq<Command>)
    requires t != [] && ReadCommand(t) == Some((command, rest)) && ReadPath(rest) == Some(commands)
    ensures ReadPath(t) == Some([command] + commands)
  {}

  lemma LineStart(letter: CodeUnit, delta: int, rest: Text)
    ensures LineText(letter, delta) + rest != [] && (LineText(letter, delta) + rest)[0] == letter
  {
    Assoc([letter], PrintInt(delta), rest);
    Head(letter, PrintInt(delta) + rest);
  }

  lemma ReadRect(rect: Rect, rest: Text, commands: seq<Command>)
    requires ReadPath(rest) == Some(commands)
    ensures ReadPath(RectText(rect) + rest) == Some(RectCommands(rect) + commands)
  {
    hide LineText, MoveText, ReadPath, ReadCommand;
    var close := [Z] + rest;
    var back := LineText(H, Back(rect.run)) + close;
    var down := LineText(V, 1) + back;
    var across := LineText(H, rect.run) + down;
    ReadClose(rest, commands);
    LineStart(H, Back(rect.run), close);
    LineStart(V, 1, back);
    LineStart(H, rect.run, down);
    ReadLineCommand(H, Back(rect.run), close);
    ReadStep(back, Horizontal(Back(rect.run)), close, [Close] + commands);
    ReadLineCommand(V, 1, back);
    ReadStep(down, Vertical(1), back, [Horizontal(Back(rect.run))] + ([Close] + commands));
    ReadLineCommand(H, rect.run, down);
    ReadStep(across, Horizontal(rect.run), down, [Vertical(1)] + ([Horizontal(Back(rect.run))] + ([Close] + commands)));
    ReadMoveCommand(rect.column, rect.row, across);
    ReadStep(MoveText(rect.column, rect.row) + across, MoveTo(rect.column, rect.row), across,
      [Horizontal(rect.run)] + ([Vertical(1)] + ([Horizontal(Back(rect.run))] + ([Close] + commands))));
    Nest(MoveText(rect.column, rect.row), LineText(H, rect.run), LineText(V, 1), LineText(H, Back(rect.run)), [Z],
      rest);
    Nest([MoveTo(rect.column, rect.row)], [Horizontal(rect.run)], [Vertical(1)], [Horizontal(Back(rect.run))], [Close],
      commands);
  }

  lemma ReadClose(rest: Text, commands: seq<Command>)
    requires ReadPath(rest) == Some(commands)
    ensures ReadPath([Z] + rest) == Some([Close] + commands)
  {
    Head(Z, rest);
  }

  lemma Nest<T>(a: seq<T>, b: seq<T>, c: seq<T>, d: seq<T>, e: seq<T>, rest: seq<T>)
    ensures (a + (b + (c + (d + e)))) + rest == a + (b + (c + (d + (e + rest))))
  {
    Assoc(a, b + (c + (d + e)), rest);
    Assoc(b, c + (d + e), rest);
    Assoc(c, d + e, rest);
    Assoc(d, e, rest);
  }

  /** The path text reads back as the outline of every rectangle. */
  lemma {:induction false} PathReads(rects: seq<Rect>)
    ensures ReadPath(PathText(rects)) == Some(PathCommands(rects))
  {
    if rects != [] {
      PathReads(rects[1..]);
      ReadRect(rects[0], PathText(rects[1..]), PathCommands(rects[1..]));
      assert RectTexts(rects)[1..] == RectTexts(rects[1..]);
    }
  }

  lemma WindingStep(
    command: Command, rest: seq<Command>, x: int, y: int, startX: int, startY: int, row: int, column: int)
    ensures Winding([command] + rest, x, y, startX, startY, row, column) ==
      match command
      case MoveTo(a, b) => Winding(rest, a, b, a, b, row, column)
      case Horizontal(delta) => Winding(rest, x + delta, y, startX, startY, row, column)
      case Vertical(delta) =>
        Crossing(x, y, y + delta, row, column) + Winding(rest, x, y + delta, startX, startY, row, column)
      case Close =>
        Crossing(startX, y, startY, row, column) + Winding(rest, startX, startY, startX, startY, row, column)
  {
    Head(command, rest);
  }

  /** One rectangle winds once around its own modules and around nothing else. */
  lemma RectWinding(rect: Rect, rest: seq<Command>, x: int, y: int, startX: int, startY: int, row: int, column: int)
    ensures Winding(RectCommands(rect) + rest, x, y, startX, startY, row, column) ==
      (if Covers(rect, row, column) then -1 else 0)
      + Winding(rest, rect.column, rect.row, rect.column, rect.row, row, column)
  {
    hide Winding;
    var c, r, n := rect.column, rect.row, rect.run;
    var close := [Close] + rest;
    var back := [Horizontal(Back(n))] + close;
    var down := [Vertical(1)] + back;
    var across := [Horizontal(n)] + down;
    Nest([MoveTo(c, r)], [Horizontal(n)], [Vertical(1)], [Horizontal(Back(n))], [Close], rest);
    WindingStep(MoveTo(c, r), across, x, y, startX, startY, row, column);
    WindingStep(Horizontal(n), down, c, r, c, r, row, column);
    WindingStep(Vertical(1), back, c + n, r, c, r, row, column);
    WindingStep(Horizontal(Back(n)), close, c + n, r + 1, c, r, row, column);
    WindingStep(Close, rest, c, r + 1, c, r, row, column);
  }

  lemma {:induction false} PathWinding(
    rects: seq<Rect>, x: int, y: int, startX: int, startY: int, row: int, column: int)
    ensures Winding(PathCommands(rects), x, y, startX, startY, row, column) == -CoverCount(rects, row, column)
  {
    if rects != [] {
      var rect := rects[0];
      RectWinding(rect, PathCommands(rects[1..]), x, y, startX, startY, row, column);
      PathWinding(rects[1..], rect.column, rect.row, rect.column, rect.row, row, column);
    }
  }

  /** Reading the emitted path and filling it paints the symbol, module for module. */
  lemma PathPaintsSymbol(m: Matrix, rects: seq<Rect>)
    requires IsRunDecomposition(m, rects)
    ensures ReadPath(PathText(rects)).Some?
    ensures forall row, column ::
      Painted(ReadPath(PathText(rects)).value, row, column) <==> Dark(m, row, column)
  {
    PathReads(rects);
    forall row, column
      ensures Painted(PathCommands(rects), row, column) <==> Dark(m, row, column)
    {
      PathWinding(rects, 0, 0, 0, 0, row, column);
      ExactCover(m, rects, row, column);
    }
  }
}
