/** How a text grid looks: the colour of every pixel, and what each console operation does to the picture. */
module Rendering {
  import opened Machine
  import opened TextGrid
  import opened Pixels

  const BORDER := 8
  const FONT_HEIGHT := 16
  const CURSOR_WIDTH := 2
  const FOREGROUND := Rgb(0xe6, 0xed, 0xf3)
  const BACKGROUND := Rgb(0x0a, 0x10, 0x20)

  // A fixed-width font: the intensity of pixel (x, y) of each character's glyph.
  datatype Font = Font(glyphWidth: usize, raster: (byte, nat, nat) -> byte) {
    function Advance(): (n: nat)
      ensures 0 < n
    {
      glyphWidth + 1
    }
  }

  function BlendByte(background: byte, foreground: byte, intensity: byte): byte {
    var b: int, f: int, a: int := background, foreground, intensity;
    BlendInRange(b, f, a);
    (b * (255 - a) + f * a) / 255
  }

  lemma BlendInRange(b: int, f: int, a: int)
    requires 0 <= b < 0x100 && 0 <= f < 0x100 && 0 <= a < 0x100
    ensures 0 <= b * (255 - a) + f * a <= 255 * 255
  {
    ProductBounds(b, 255 - a);
    ProductBounds(f, a);
  }

  lemma ProductBounds(m: int, n: int)
    requires 0 <= m <= 255 && 0 <= n
    ensures 0 <= m * n <= 255 * n
  {
    TimesIsProduct(n, m);
    TimesIsProduct(n, 255);
    TimesGrows(n, m, 255);
  }

  lemma {:induction false} TimesGrows(n: nat, a: nat, b: nat)
    requires a <= b
    ensures Times(n, a) <= Times(n, b)
  {
    if n == 0 {
    } else {
      TimesGrows(n - 1, a, b);
    }
  }

  function Blend(intensity: byte): Rgb {
    Rgb(BlendByte(BACKGROUND.r, FOREGROUND.r, intensity),
        BlendByte(BACKGROUND.g, FOREGROUND.g, intensity),
        BlendByte(BACKGROUND.b, FOREGROUND.b, intensity))
  }

  /** Intensity 0 is the background, 255 the foreground, and every other one lies between them. */
  lemma BlendRange(intensity: byte)
    ensures Blend(0) == BACKGROUND && Blend(255) == FOREGROUND
    ensures BACKGROUND.r <= Blend(intensity).r <= FOREGROUND.r
    ensures BACKGROUND.g <= Blend(intensity).g <= FOREGROUND.g
    ensures BACKGROUND.b <= Blend(intensity).b <= FOREGROUND.b
  {
  }

  /** `result` is (background * (255 - a) + foreground * a) / 255, rounded down. */
  ghost predicate Weighted(result: int, background: int, foreground: int, a: int) {
    255 * result <= background * (255 - a) + foreground * a < 255 * result + 255
  }

  /** Each channel is the average of the two colours weighted by the intensity. */
  lemma BlendIsWeighted(a: byte)
    ensures Weighted(Blend(a).r, 0x0a, 0xe6, a)
    ensures Weighted(Blend(a).g, 0x10, 0xed, a)
    ensures Weighted(Blend(a).b, 0x20, 0xf3, a)
  {
  }

  // ---------- layout ----------

  function Columns(info: Info, font: Font): nat {
    if info.width < 2 * BORDER then 0 else Quotient(info.width - 2 * BORDER, font.Advance())
  }

  function Rows(info: Info): nat {
    if info.height < 2 * BORDER + FONT_HEIGHT then 0
    else (info.height - 2 * BORDER - FONT_HEIGHT) / LINE_HEIGHT + 1
  }

  /** The screen has room for at least one cell. */
  ghost predicate Fits(info: Info, font: Font) {
    1 <= Columns(info, font) && 1 <= Rows(info)
  }

  function CellX(font: Font, column: nat): nat {
    BORDER + Times(column, font.Advance())
  }

  function LineY(row: nat): nat
    requires 1 <= row
  {
    BORDER + LINE_HEIGHT * (row - 1)
  }

  /** The index in `lines` of the text line that pixel row y belongs to, and the pixel row within it. */
  function LineOf(y: nat): nat {
    (y + LINE_HEIGHT - BORDER) / LINE_HEIGHT
  }

  function WithinLine(y: nat): nat {
    (y + LINE_HEIGHT - BORDER) % LINE_HEIGHT
  }

  function ColumnOf(font: Font, x: nat): nat
    requires BORDER <= x
  {
    Quotient(x - BORDER, font.Advance())
  }

  function CellColour(font: Font, cell: Cell, px: nat, py: nat): Rgb {
    if cell.None? || px >= font.glyphWidth || py >= FONT_HEIGHT then BACKGROUND
    else Blend(font.raster(cell.value, px, py))
  }

  /** The colour of pixel (x, y): background everywhere except inside glyphs. */
  function Colour(font: Font, lines: seq<seq<Cell>>, x: nat, y: nat): Rgb {
    if x < BORDER || LineOf(y) >= |lines| then BACKGROUND
    else
      var line, column := lines[LineOf(y)], ColumnOf(font, x);
      if column >= |line| then BACKGROUND
      else
        QuotientBounds(x - BORDER, font.Advance());
        CellColour(font, line[column], x - CellX(font, column), WithinLine(y))
  }

  ghost function Screen(info: Info, font: Font, lines: seq<seq<Cell>>): (p: Picture)
    ensures Sized(p, info)
  {
    seq(info.height, y requires 0 <= y < info.height =>
      seq(info.width, x requires 0 <= x < info.width => Encode(info, Colour(font, lines, x, y))))
  }

  lemma ScreenAt(info: Info, font: Font, lines: seq<seq<Cell>>, x: nat, y: nat)
    requires x < info.width && y < info.height
    ensures Screen(info, font, lines)[y][x] == Encode(info, Colour(font, lines, x, y))
  {
  }

  // ---------- arithmetic of the layout ----------

  /** The last column ends before the right border, and one more cell would not. */
  lemma WrapTest(info: Info, font: Font, column: nat)
    requires Fits(info, font) && column <= Columns(info, font)
    ensures CellX(font, column) + font.Advance() + BORDER > info.width <==> column == Columns(info, font)
  {
    QuotientAtLeast(info.width - 2 * BORDER, font.Advance(), column + 1);
  }

  /** The last line ends before the bottom border, and one more line would not. */
  lemma ScrollTest(info: Info, row: nat)
    requires 1 <= row <= Rows(info)
    ensures LineY(row) + LINE_HEIGHT + FONT_HEIGHT + BORDER > info.height <==> row == Rows(info)
  {
  }

  lemma CellPixels(font: Font, column: nat, x: nat)
    requires CellX(font, column) <= x < CellX(font, column) + font.Advance()
    ensures BORDER <= x && ColumnOf(font, x) == column
  {
    hide Times, Quotient;
    QuotientBounds(x - BORDER, font.Advance());
    var q := Quotient(x - BORDER, font.Advance());
    BlockIsUnique(q, x - BORDER - Times(q, font.Advance()), column, x - CellX(font, column), font.Advance());
  }

  lemma CellBounds(font: Font, x: nat)
    requires BORDER <= x
    ensures CellX(font, ColumnOf(font, x)) <= x < CellX(font, ColumnOf(font, x)) + font.Advance()
  {
    QuotientBounds(x - BORDER, font.Advance());
  }

  lemma LinePixels(row: nat, y: nat)
    requires 1 <= row
    ensures LineY(row) <= y < LineY(row) + LINE_HEIGHT <==> LineOf(y) == row
    ensures LineOf(y) == row ==> WithinLine(y) == y - LineY(row)
  {
  }

  // ---------- operations on the picture ----------

  /** Two pictures of the same size are equal when their pixels are. */
  lemma SamePicture(p: Picture, q: Picture, info: Info)
    requires Sized(p, info) && Sized(q, info)
    requires forall x, y :: 0 <= x < info.width && 0 <= y < info.height ==> p[y][x] == q[y][x]
    ensures p == q
  {
    forall y | 0 <= y < info.height
      ensures p[y] == q[y]
    {
    }
  }

  function GlyphRect(font: Font, column: nat, row: nat): Rect
    requires 1 <= row
  {
    Rect(CellX(font, column), CellX(font, column) + font.glyphWidth, LineY(row), LineY(row) + FONT_HEIGHT)
  }

  function GlyphPaint(font: Font, c: byte, x0: nat, y0: nat): Paint {
    (x: nat, y: nat) => if x0 <= x && y0 <= y then Blend(font.raster(c, x - x0, y - y0)) else BACKGROUND
  }

  lemma ColourAfterPut(font: Font, lines: seq<seq<Cell>>, row: nat, column: nat, c: byte, x: nat, y: nat)
    requires 1 <= row < |lines| && column < |lines[row]|
    ensures Colour(font, lines[row := lines[row][column := Some(c)]], x, y) ==
            if GlyphRect(font, column, row).Has(x, y) then GlyphPaint(font, c, CellX(font, column), LineY(row))(x, y)
            else Colour(font, lines, x, y)
  {
    hide Times, Quotient, Blend;
    LinePixels(row, y);
    hide LineOf, WithinLine, LineY;
    if BORDER <= x {
      CellBounds(font, x);
    }
    if CellX(font, column) <= x < CellX(font, column) + font.Advance() {
      CellPixels(font, column, x);
    }
  }

  /** Drawing a glyph over a cell gives the picture of the grid with that character in it. */
  lemma DrawGlyph(info: Info, font: Font, lines: seq<seq<Cell>>, row: nat, column: nat, c: byte)
    requires 1 <= row < |lines| && column < |lines[row]|
    ensures Painted(Screen(info, font, lines), info, GlyphRect(font, column, row),
                    GlyphPaint(font, c, CellX(font, column), LineY(row)))
         == Screen(info, font, lines[row := lines[row][column := Some(c)]])
  {
    var after := lines[row := lines[row][column := Some(c)]];
    var r, paint := GlyphRect(font, column, row), GlyphPaint(font, c, CellX(font, column), LineY(row));
    var p, q := Painted(Screen(info, font, lines), info, r, paint), Screen(info, font, after);
    hide Colour, Encode, GlyphRect, GlyphPaint;
    forall x, y | 0 <= x < info.width && 0 <= y < info.height
      ensures p[y][x] == q[y][x]
    {
      ColourAfterPut(font, lines, row, column, c, x, y);
    }
    SamePicture(p, q, info);
  }

  function Plain(): Paint {
    (x: nat, y: nat) => BACKGROUND
  }

  /** The rectangle `backspace` clears. */
  function EraseRect(info: Info, font: Font, column: nat, row: nat): Rect
    requires 1 <= row
  {
    Rect(CellX(font, column), Min(CellX(font, column) + font.Advance(), info.width),
         LineY(row), Min(LineY(row) + FONT_HEIGHT, info.height))
  }

  lemma ColourAfterErase(info: Info, font: Font, lines: seq<seq<Cell>>, row: nat, column: nat, x: nat, y: nat)
    requires 1 <= row < |lines| && column < |lines[row]| && x < info.width && y < info.height
    ensures Colour(font, lines[row := lines[row][column := None]], x, y) ==
            if EraseRect(info, font, column, row).Has(x, y) then BACKGROUND else Colour(font, lines, x, y)
  {
    hide Times, Quotient, Blend;
    LinePixels(row, y);
    hide LineOf, WithinLine, LineY;
    if BORDER <= x {
      CellBounds(font, x);
    }
    if CellX(font, column) <= x < CellX(font, column) + font.Advance() {
      CellPixels(font, column, x);
    }
  }

  /** Clearing a cell's rectangle gives the picture of the grid with that cell empty. */
  lemma EraseGlyph(info: Info, font: Font, lines: seq<seq<Cell>>, row: nat, column: nat)
    requires 1 <= row < |lines| && column < |lines[row]|
    ensures Painted(Screen(info, font, lines), info, EraseRect(info, font, column, row), Plain())
         == Screen(info, font, lines[row := lines[row][column := None]])
  {
    var after := lines[row := lines[row][column := None]];
    var r := EraseRect(info, font, column, row);
    var p, q := Painted(Screen(info, font, lines), info, r, Plain()), Screen(info, font, after);
    hide Colour, Encode, EraseRect;
    forall x, y | 0 <= x < info.width && 0 <= y < info.height
      ensures p[y][x] == q[y][x]
    {
      ColourAfterErase(info, font, lines, row, column, x, y);
    }
    SamePicture(p, q, info);
  }

  /** After the scroll the bottom rows are background and every other row shows what was one line below. */
  lemma ColourAfterScroll(info: Info, font: Font, lines: seq<seq<Cell>>, columns: nat, x: nat, y: nat)
    requires |lines| == Rows(info) + 1 && 1 <= Rows(info) && y < info.height
    ensures Colour(font, lines[1..] + [BlankLine(columns)], x, y) ==
            if y + LINE_HEIGHT >= info.height then BACKGROUND else Colour(font, lines, x, y + LINE_HEIGHT)
  {
    hide Times, Quotient, Blend;
    assert LineOf(y + LINE_HEIGHT) == LineOf(y) + 1 && WithinLine(y + LINE_HEIGHT) == WithinLine(y);
    assert y + LINE_HEIGHT >= info.height ==> LineOf(y) >= Rows(info);
    hide LineOf, WithinLine, Rows;
    if BORDER <= x {
      CellBounds(font, x);
    }
  }

  /** Moving the picture up one line and clearing the bottom gives the picture of the scrolled grid. */
  lemma ScrollPicture(info: Info, font: Font, lines: seq<seq<Cell>>, columns: nat, moved: Picture)
    requires |lines| == Rows(info) + 1 && 1 <= Rows(info)
    requires Sized(moved, info)
    requires moved[..info.height - LINE_HEIGHT] == Screen(info, font, lines)[LINE_HEIGHT..]
    ensures Painted(moved, info, Rect(0, info.width, info.height - LINE_HEIGHT, info.height), Plain())
         == Screen(info, font, lines[1..] + [BlankLine(columns)])
  {
    var after := lines[1..] + [BlankLine(columns)];
    var original := Screen(info, font, lines);
    var r := Rect(0, info.width, info.height - LINE_HEIGHT, info.height);
    var p, q := Painted(moved, info, r, Plain()), Screen(info, font, after);
    hide Colour, Encode;
    forall x, y | 0 <= x < info.width && 0 <= y < info.height
      ensures p[y][x] == q[y][x]
    {
      ColourAfterScroll(info, font, lines, columns, x, y);
      if y < info.height - LINE_HEIGHT {
        assert moved[y] == moved[..info.height - LINE_HEIGHT][y];
        assert original[LINE_HEIGHT..][y] == original[y + LINE_HEIGHT];
      }
    }
    SamePicture(p, q, info);
  }

  /** Painting everything in the background colour gives the picture of the cleared grid. */
  lemma ClearPicture(info: Info, font: Font, columns: nat, rows: nat, p: Picture)
    requires Sized(p, info)
    ensures Painted(p, info, Rect(0, info.width, 0, info.height), Plain())
         == Screen(info, font, Cleared(columns, rows).lines)
  {
    var lines := Cleared(columns, rows).lines;
    var q, s := Painted(p, info, Rect(0, info.width, 0, info.height), Plain()), Screen(info, font, lines);
    forall x, y | 0 <= x < info.width && 0 <= y < info.height
      ensures q[y][x] == s[y][x]
    {
      hide Encode, Times, Quotient, LineOf;
      assert Colour(font, lines, x, y) == BACKGROUND;
    }
    SamePicture(q, s, info);
  }

  /** Where the cursor is drawn. */
  function CursorRect(info: Info, font: Font, column: nat, row: nat): Rect
    requires 1 <= row
  {
    Rect(CellX(font, column), Min(CellX(font, column) + CURSOR_WIDTH, info.width),
         LineY(row), Min(LineY(row) + FONT_HEIGHT, info.height))
  }

  // ---------- the picture of a grid, pixel by pixel ----------

  /** Pixel (x, y) lies in the glyph of that cell: 16 rows from 8 + 18 * (row - 1) on, cells a glyph and a gap wide. */
  ghost predicate InGlyph(font: Font, lines: seq<seq<Cell>>, x: nat, y: nat, row: nat, column: nat) {
    && row < |lines| && column < |lines[row]| && lines[row][column].Some?
    && 0 <= x - (8 + column * (font.glyphWidth + 1)) < font.glyphWidth
    && 0 <= y - (8 + 18 * (row - 1)) < 16
  }

  /** Inside a glyph a pixel has the colour of the glyph's raster there ... */
  lemma GlyphPixel(font: Font, lines: seq<seq<Cell>>, x: nat, y: nat, row: nat, column: nat)
    requires InGlyph(font, lines, x, y, row, column)
    ensures var dx, dy := x - (8 + column * (font.glyphWidth + 1)), y - (8 + 18 * (row - 1));
            Colour(font, lines, x, y) == Blend(font.raster(lines[row][column].value, dx, dy))
  {
    TimesIsProduct(column, font.Advance());
    hide Times, Quotient, Blend;
    assert LineOf(y) == row && WithinLine(y) == y - (8 + 18 * (row - 1));
    hide LineOf, WithinLine;
    CellPixels(font, column, x);
  }

  /** ... and everywhere else it has the background colour. */
  lemma GapPixel(font: Font, lines: seq<seq<Cell>>, x: nat, y: nat)
    requires forall row, column :: !InGlyph(font, lines, x, y, row, column)
    ensures Colour(font, lines, x, y) == Rgb(0x0a, 0x10, 0x20)
  {
    hide Times, Quotient, Blend;
    if BORDER <= x {
      var row: int, column := LineOf(y), ColumnOf(font, x);
      CellBounds(font, x);
      TimesIsProduct(column, font.Advance());
      assert WithinLine(y) == y - (8 + 18 * (row - 1));
      hide LineOf, WithinLine, ColumnOf;
      assert !InGlyph(font, lines, x, y, row, column);
    }
  }

  /** The cursor is two pixels wide and as high as a glyph, at the left of the pen's cell. */
  ghost predicate UnderCursor(font: Font, column: nat, row: nat, x: nat, y: nat) {
    0 <= x - (8 + column * (font.glyphWidth + 1)) < 2 && 0 <= y - (8 + 18 * (row as int - 1)) < 16
  }

  lemma CursorPixels(info: Info, font: Font, column: nat, row: nat, x: nat, y: nat)
    requires 1 <= row && x < info.width && y < info.height
    ensures CursorRect(info, font, column, row).Has(x, y) <==> UnderCursor(font, column, row, x, y)
  {
    TimesIsProduct(column, font.Advance());
  }
}
