/** The text console as a grid of cells: wrap, carriage return, backspace, tab and one-line scroll. */
module TextGrid {
  import opened Machine

  // A Unicode scalar value of the text being written.
  type Scalar = n: nat | n < 0x11_0000

  // A cell holds the ASCII character last drawn in it, or nothing if it was cleared since.
  type Cell = Option<byte>

  const BACKSPACE := 0x08
  const TABULATOR := 0x09
  const QUESTION := 0x3f

  /**
   * lines[0] is the line that last scrolled off the top, lines[1..] are the lines on the screen. The pen stands in
   * lines[row] before cell `column`; in column |cells| the next character wraps.
   */
  datatype Grid = Grid(lines: seq<seq<Cell>>, row: nat, column: nat) {
    ghost predicate Valid(columns: nat, rows: nat) {
      && 1 <= columns && 1 <= rows
      && |lines| == rows + 1
      && (forall k :: 0 <= k < |lines| ==> |lines[k]| == columns)
      && 1 <= row <= rows && column <= columns
      // the lines below the pen are blank
      && (forall k :: row < k < |lines| ==> lines[k] == BlankLine(columns))
    }
  }

  function BlankLine(columns: nat): seq<Cell> {
    seq(columns, _ => None)
  }

  function Cleared(columns: nat, rows: nat): Grid {
    Grid(seq(rows + 1, _ => BlankLine(columns)), 1, 0)
  }

  /** To the start of the next line, scrolling when the pen is on the last one. */
  function NewLine(g: Grid): Grid
    requires g.lines != [] && g.row < |g.lines|
  {
    if g.row + 1 < |g.lines| then g.(row := g.row + 1, column := 0)
    else Grid(g.lines[1..] + [BlankLine(|g.lines[g.row]|)], g.row, 0)
  }

  function SetCell(g: Grid, column: nat, cell: Cell): Grid
    requires g.row < |g.lines| && column < |g.lines[g.row]|
  {
    g.(lines := g.lines[g.row := g.lines[g.row][column := cell]])
  }

  function Put(g: Grid, c: byte): Grid
    requires g.row < |g.lines| && g.column < |g.lines[g.row]|
  {
    SetCell(g, g.column, Some(c)).(column := g.column + 1)
  }

  function WriteCharacter(g: Grid, c: byte, columns: nat, rows: nat): (h: Grid)
    requires g.Valid(columns, rows)
    ensures h.Valid(columns, rows)
  {
    if c == NEWLINE then NewLine(g)
    else if g.column == columns then Put(NewLine(g), c)
    else Put(g, c)
  }

  function Erase(g: Grid, columns: nat, rows: nat): (h: Grid)
    requires g.Valid(columns, rows)
    ensures h.Valid(columns, rows)
  {
    if g.column == 0 then g else SetCell(g, g.column - 1, None).(column := g.column - 1)
  }

  /** n spaces. */
  function WriteSpaces(g: Grid, n: nat, columns: nat, rows: nat): (h: Grid)
    requires g.Valid(columns, rows)
    ensures h.Valid(columns, rows)
  {
    if n == 0 then g else WriteCharacter(WriteSpaces(g, n - 1, columns, rows), SPACE, columns, rows)
  }

  function WriteScalar(g: Grid, c: Scalar, columns: nat, rows: nat): (h: Grid)
    requires g.Valid(columns, rows)
    ensures h.Valid(columns, rows)
  {
    if c == RETURN then g.(column := 0)
    else if c == BACKSPACE then Erase(g, columns, rows)
    else if c == TABULATOR then WriteSpaces(g, 4, columns, rows)
    else if c < 0x80 then WriteCharacter(g, c, columns, rows)
    else WriteCharacter(g, QUESTION, columns, rows)
  }

  /** Writing a whole text. */
  function Write(g: Grid, text: seq<Scalar>, columns: nat, rows: nat): (h: Grid)
    requires g.Valid(columns, rows)
    ensures h.Valid(columns, rows)
  {
    if text == [] then g
    else WriteScalar(Write(g, text[..|text| - 1], columns, rows), Last(text), columns, rows)
  }

  lemma {:induction false} WriteConcat(g: Grid, a: seq<Scalar>, b: seq<Scalar>, columns: nat, rows: nat)
    requires g.Valid(columns, rows)
    ensures Write(g, a + b, columns, rows) == Write(Write(g, a, columns, rows), b, columns, rows)
    decreases |b|
  {
    hide WriteScalar, Grid.Valid;
    if b == [] {
      assert a + b == a;
    } else {
      assert (a + b)[..|a + b| - 1] == a + b[..|b| - 1];
      WriteConcat(g, a, b[..|b| - 1], columns, rows);
    }
  }

  // ---------- runs of console operations ----------

  datatype ConsoleOp = PrintOp(text: seq<Scalar>) | ClearOp | ShowCursorOp

  function AfterOp(g: Grid, op: ConsoleOp, columns: nat, rows: nat): (h: Grid)
    requires g.Valid(columns, rows)
    ensures h.Valid(columns, rows)
  {
    match op
    case PrintOp(text) => Write(g, text, columns, rows)
    case ClearOp => Cleared(columns, rows)
    case ShowCursorOp => g
  }

  function AfterOps(g: Grid, ops: seq<ConsoleOp>, columns: nat, rows: nat): (h: Grid)
    requires g.Valid(columns, rows)
    ensures h.Valid(columns, rows)
  {
    if ops == [] then g else AfterOp(AfterOps(g, ops[..|ops| - 1], columns, rows), Last(ops), columns, rows)
  }

  /** The cursor is visible iff the last operation showed it. */
  function CursorAfter(visible: bool, ops: seq<ConsoleOp>): bool {
    if ops == [] then visible else Last(ops).ShowCursorOp?
  }

  lemma {:induction false} AfterOpsConcat(g: Grid, a: seq<ConsoleOp>, b: seq<ConsoleOp>, columns: nat, rows: nat)
    requires g.Valid(columns, rows)
    ensures AfterOps(g, a + b, columns, rows) == AfterOps(AfterOps(g, a, columns, rows), b, columns, rows)
    decreases |b|
  {
    hide AfterOp, Grid.Valid;
    if b == [] {
      assert a + b == a;
    } else {
      assert (a + b)[..|a + b| - 1] == a + b[..|b| - 1];
      AfterOpsConcat(g, a, b[..|b| - 1], columns, rows);
    }
  }

  lemma ClearedIsValid(columns: nat, rows: nat)
    requires 1 <= columns && 1 <= rows
    ensures Cleared(columns, rows).Valid(columns, rows)
  {
  }

  /** A newline leaves the pen at the start of a blank line, and so does nothing else to the lines it keeps. */
  lemma NewLineIsBlank(g: Grid, columns: nat, rows: nat)
    requires g.Valid(columns, rows)
    ensures NewLine(g).Valid(columns, rows)
    ensures NewLine(g).column == 0 && NewLine(g).lines[NewLine(g).row] == BlankLine(columns)
  {
  }

  // ---------- plain text on one line ----------

  predicate PlainText(text: seq<Scalar>) {
    forall i :: 0 <= i < |text| ==> 0x20 <= text[i] < 0x7f
  }

  /** A line with `text` drawn over its cells from `at` on. */
  function Overlay(line: seq<Cell>, at: nat, text: seq<Scalar>): seq<Cell>
    requires at + |text| <= |line| && PlainText(text)
  {
    seq(|line|, i requires 0 <= i < |line| =>
      if at <= i < at + |text| then Some(text[i - at] as byte) else line[i])
  }

  /** Text that fits the rest of the line is drawn over it, and moves nothing else. */
  lemma {:induction false} WritePlain(g: Grid, text: seq<Scalar>, columns: nat, rows: nat)
    requires g.Valid(columns, rows) && PlainText(text) && g.column + |text| <= columns
    ensures Write(g, text, columns, rows) ==
            Grid(g.lines[g.row := Overlay(g.lines[g.row], g.column, text)], g.row, g.column + |text|)
  {
    var line := g.lines[g.row];
    if text == [] {
      assert Overlay(line, g.column, text) == line;
    } else {
      var front := text[..|text| - 1];
      WritePlain(g, front, columns, rows);
      var before := Overlay(line, g.column, front);
      assert Overlay(line, g.column, text) == before[g.column + |front| := Some(Last(text) as byte)];
    }
  }

  // ---------- text of any length: wrap and scroll ----------

  /** Scalars that draw a glyph: all but backspace, tab, newline and carriage return. */
  predicate DrawnText(text: seq<Scalar>) {
    forall i :: 0 <= i < |text| ==> text[i] !in {0x08, 0x09, 0x0a, 0x0d}
  }

  /** The glyph drawn for a scalar: ASCII as it is, anything else as a question mark. */
  function Glyph(c: Scalar): byte {
    if c < 0x80 then c else '?' as int
  }

  /**
   * The cell in column j of a line on endless paper, after drawing `text` from the pen on: line after line of
   * `columns` glyphs each, over what the grid held before.
   */
  ghost function OnPaper(g: Grid, text: seq<Scalar>, columns: nat, line: nat, j: nat): Cell
    requires forall k :: 0 <= k < |g.lines| ==> |g.lines[k]| == columns
    requires j < columns
  {
    var k := if g.row <= line then Times(line - g.row, columns) + j - g.column else -1;
    if 0 <= k < |text| then Some(Glyph(text[k])) else if line < |g.lines| then g.lines[line][j] else None
  }

  function ScrolledBy(line: nat, rows: nat): nat {
    if line <= rows then 0 else line - rows
  }

  /** `h` is the window on that paper that ends with the pen's line, with the pen after the last glyph. */
  ghost predicate Window(g: Grid, text: seq<Scalar>, h: Grid, line: nat, columns: nat, rows: nat)
    requires g.Valid(columns, rows) && h.Valid(columns, rows)
  {
    && g.row <= line && Times(line - g.row, columns) + h.column == g.column + |text|
    && h.row == line - ScrolledBy(line, rows)
    && forall i, j :: 0 <= i <= rows && 0 <= j < columns ==>
         h.lines[i][j] == OnPaper(g, text, columns, i + ScrolledBy(line, rows), j)
  }

  lemma WindowStarts(g: Grid, columns: nat, rows: nat)
    requires g.Valid(columns, rows)
    ensures Window(g, [], g, g.row, columns, rows)
  {
  }

  lemma WindowMovesOn(g: Grid, text: seq<Scalar>, h: Grid, line: nat, columns: nat, rows: nat)
    requires g.Valid(columns, rows) && h.Valid(columns, rows) && h.column == columns
    requires Window(g, text, h, line, columns, rows)
    ensures NewLine(h).Valid(columns, rows)
    ensures Window(g, text, NewLine(h), line + 1, columns, rows)
  {
    var h' := NewLine(h);
    assert Times(line + 1 - g.row, columns) == Times(line - g.row, columns) + columns;
    forall i, j | 0 <= i <= rows && 0 <= j < columns
      ensures h'.lines[i][j] == OnPaper(g, text, columns, i + ScrolledBy(line + 1, rows), j)
    {
      hide Times;
      if h.row == rows {
        if i < rows {
          assert h'.lines[i] == h.lines[i + 1];
        }
      }
    }
  }

  lemma WindowTakesGlyph(g: Grid, text: seq<Scalar>, h: Grid, line: nat, c: Scalar, columns: nat, rows: nat)
    requires g.Valid(columns, rows) && h.Valid(columns, rows) && h.column < columns
    requires Window(g, text, h, line, columns, rows)
    ensures Put(h, Glyph(c)).Valid(columns, rows)
    ensures Window(g, text + [c], Put(h, Glyph(c)), line, columns, rows)
  {
    hide Times;
    var h', shift := Put(h, Glyph(c)), ScrolledBy(line, rows);
    forall i, j | 0 <= i <= rows && 0 <= j < columns
      ensures h'.lines[i][j] == OnPaper(g, text + [c], columns, i + shift, j)
    {
      assert h.lines[i][j] == OnPaper(g, text, columns, i + shift, j);
      if g.row <= i + shift && Times(i + shift - g.row, columns) + j == Times(line - g.row, columns) + h.column {
        BlockIsUnique(i + shift - g.row, j, line - g.row, h.column, columns);
      }
    }
  }

  lemma WindowGrows(g: Grid, text: seq<Scalar>, h: Grid, line: nat, c: Scalar, columns: nat, rows: nat)
    returns (line': nat)
    requires g.Valid(columns, rows) && h.Valid(columns, rows) && DrawnText([c])
    requires Window(g, text, h, line, columns, rows)
    ensures Window(g, text + [c], WriteScalar(h, c, columns, rows), line', columns, rows)
    ensures 1 <= WriteScalar(h, c, columns, rows).column
  {
    assert [c][0] == c;
    assert WriteScalar(h, c, columns, rows) == WriteCharacter(h, Glyph(c), columns, rows);
    hide Window, Put, Grid.Valid, NewLine;
    if h.column == columns {
      WindowMovesOn(g, text, h, line, columns, rows);
      NewLineIsBlank(h, columns, rows);
      WindowTakesGlyph(g, text, NewLine(h), line + 1, c, columns, rows);
      line' := line + 1;
    } else {
      WindowTakesGlyph(g, text, h, line, c, columns, rows);
      line' := line;
    }
  }

  lemma {:induction false} WriteIsWindow(g: Grid, text: seq<Scalar>, columns: nat, rows: nat) returns (line: nat)
    requires g.Valid(columns, rows) && DrawnText(text)
    ensures Window(g, text, Write(g, text, columns, rows), line, columns, rows)
    ensures text != [] ==> 1 <= Write(g, text, columns, rows).column
    decreases |text|
  {
    if text == [] {
      WindowStarts(g, columns, rows);
      line := g.row;
    } else {
      hide Window, Grid.Valid, WriteScalar;
      var front := text[..|text| - 1];
      var before := WriteIsWindow(g, front, columns, rows);
      line := WindowGrows(g, front, Write(g, front, columns, rows), before, Last(text), columns, rows);
      assert front + [Last(text)] == text;
    }
  }

  lemma LineOfPosition(lines: nat, column: nat, columns: nat, position: nat)
    requires 1 <= column <= columns && Times(lines, columns) + column == position + 1
    ensures lines == position / columns && column == position % columns + 1
  {
    QuotientIsDivision(position, columns);
    QuotientBounds(position, columns);
    var q := Quotient(position, columns);
    BlockIsUnique(q, position - Times(q, columns), lines, column - 1, columns);
    TimesIsProduct(q, columns);
  }

  /** `h` is the grid after drawing `text`, `last` being the position of its last glyph after the pen's line start. */
  ghost predicate Drawn(g: Grid, text: seq<Scalar>, h: Grid, columns: nat, rows: nat)
    requires g.Valid(columns, rows) && h.Valid(columns, rows) && text != []
  {
    var last := g.column + |text| - 1;
    var line := g.row + last / columns;
    && h.row == line - ScrolledBy(line, rows) && h.column == last % columns + 1
    && forall i, j :: 0 <= i <= rows && 0 <= j < columns ==>
         h.lines[i][j] == OnPaper(g, text, columns, i + ScrolledBy(line, rows), j)
  }

  lemma WindowIsDrawn(g: Grid, text: seq<Scalar>, h: Grid, line: nat, columns: nat, rows: nat)
    requires g.Valid(columns, rows) && h.Valid(columns, rows) && text != [] && 1 <= h.column
    requires Window(g, text, h, line, columns, rows)
    ensures Drawn(g, text, h, columns, rows)
  {
    hide OnPaper, Times;
    LineOfPosition(line - g.row, h.column, columns, g.column + |text| - 1);
  }

  /**
   * Text of any length, from any place: the glyphs fill line after line, the screen scrolls by as many lines as do
   * not fit, and no other cell of the lines that stay changes.
   */
  lemma WriteWraps(g: Grid, text: seq<Scalar>, columns: nat, rows: nat)
    requires g.Valid(columns, rows) && DrawnText(text) && text != []
    ensures Drawn(g, text, Write(g, text, columns, rows), columns, rows)
  {
    hide Write, Window, Drawn, Grid.Valid;
    var line := WriteIsWindow(g, text, columns, rows);
    WindowIsDrawn(g, text, Write(g, text, columns, rows), line, columns, rows);
  }

  lemma GlyphAt(g: Grid, text: seq<Scalar>, columns: nat, k: nat, q: nat, r: nat)
    requires forall i :: 0 <= i < |g.lines| ==> |g.lines[i]| == columns
    requires k < |text| && r < columns && Times(q, columns) + r == g.column + k
    ensures OnPaper(g, text, columns, g.row + q, r) == Some(Glyph(text[k]))
  {
  }

  /** So glyph number k lies column + k cells after the start of the pen's line. */
  lemma GlyphOnPaper(g: Grid, text: seq<Scalar>, columns: nat, k: nat)
    requires forall i :: 0 <= i < |g.lines| ==> |g.lines[i]| == columns
    requires 1 <= columns && k < |text|
    ensures OnPaper(g, text, columns, g.row + (g.column + k) / columns, (g.column + k) % columns)
         == Some(Glyph(text[k]))
  {
    hide OnPaper, Times;
    var q, r := DivisionSplits(g.column + k, columns);
    TimesIsProduct(q, columns);
    GlyphAt(g, text, columns, k, q, r);
  }

  lemma {:induction false} SpacesAreWritten(g: Grid, n: nat, columns: nat, rows: nat)
    requires g.Valid(columns, rows)
    ensures WriteSpaces(g, n, columns, rows) == Write(g, seq(n, _ => SPACE as Scalar), columns, rows)
  {
    hide WriteCharacter, Grid.Valid;
    if n == 0 {
    } else {
      SpacesAreWritten(g, n - 1, columns, rows);
      assert seq(n, _ => SPACE as Scalar)[..n - 1] == seq(n - 1, _ => SPACE as Scalar);
    }
  }

  /** A tab is four spaces. */
  lemma TabIsSpaces(g: Grid, columns: nat, rows: nat)
    requires g.Valid(columns, rows)
    ensures WriteScalar(g, 0x09, columns, rows) == Write(g, [0x20, 0x20, 0x20, 0x20], columns, rows)
  {
    hide Write, WriteSpaces, Grid.Valid;
    SpacesAreWritten(g, 4, columns, rows);
    assert seq(4, _ => SPACE as Scalar) == [0x20, 0x20, 0x20, 0x20];
  }

  /** A backspace empties the cell before the pen and moves the pen there, and does nothing at the line's start. */
  lemma BackspaceEmpties(g: Grid, columns: nat, rows: nat)
    requires g.Valid(columns, rows)
    ensures WriteScalar(g, 0x08, columns, rows) ==
            if g.column == 0 then g
            else Grid(g.lines[g.row := g.lines[g.row][g.column - 1 := None]], g.row, g.column - 1)
  {
  }

  /** Carriage return and newline move the pen; only a newline on the last line moves the text, up by one line. */
  lemma ReturnAndNewLineMove(g: Grid, columns: nat, rows: nat)
    requires g.Valid(columns, rows)
    ensures WriteScalar(g, 0x0d, columns, rows) == Grid(g.lines, g.row, 0)
    ensures WriteScalar(g, 0x0a, columns, rows) ==
            if g.row < rows then Grid(g.lines, g.row + 1, 0)
            else Grid(g.lines[1..] + [seq(columns, _ => None)], rows, 0)
  {
    assert BlankLine(columns) == seq(columns, _ => None);
  }
}
