/** The framebuffer console: every operation on its bytes keeps them the picture of a text grid. */
module Framebuffer {
  import opened Machine
  import opened TextGrid
  import opened Pixels
  import opened Rendering

  class FramebufferWriter {
    const buffer: array<byte>
    const info: Info
    const font: Font
    var column: usize
    var row: usize
    var cursorVisible: bool
    // The text grid the console stands for; the source keeps no such thing.
    ghost var grid: Grid

    // ---------- what the fields mean ----------

    ghost predicate Ready() {
      info.Describes(buffer.Length) && Fits(info, font)
    }

    ghost function Picture(): (p: Pixels.Picture)
      reads this, buffer
      requires Ready()
      ensures Sized(p, info)
    {
      Shown(buffer[..], info)
    }

    /** The grid is well formed, and the pen is at its cell. */
    ghost predicate PenOk()
      reads this
      requires Ready()
    {
      && grid.Valid(Columns(info, font), Rows(info))
      && column == CellX(font, grid.column) && row == LineY(grid.row)
    }

    /** The picture without the cursor. */
    ghost function Text(): Pixels.Picture
      reads this
    {
      Screen(info, font, grid.lines)
    }

    ghost function Cursor(): Rect
      reads this
      requires 1 <= grid.row
    {
      CursorRect(info, font, grid.column, grid.row)
    }

    /** Every pixel shows the grid, with exactly the cursor's rectangle inverted while it is visible. */
    ghost predicate Valid()
      reads this, buffer
      ensures Valid() ==> Ready() && grid.Valid(Columns(info, font), Rows(info))
    {
      && Ready() && PenOk()
      && Picture() == if cursorVisible then Inverted(Text(), Cursor()) else Text()
    }

    constructor (buffer: array<byte>, info: Info, font: Font)
      requires info.Describes(buffer.Length) && Fits(info, font)
      ensures Ready() && PenOk() && !cursorVisible
      ensures this.buffer == buffer && this.info == info && this.font == font
      ensures grid == Cleared(Columns(info, font), Rows(info))
    {
      this.buffer, this.info, this.font := buffer, info, font;
      column, row, cursorVisible := BORDER, BORDER, false;
      grid := Cleared(Columns(info, font), Rows(info));
      new;
      ClearedIsValid(Columns(info, font), Rows(info));
    }

    // ---------- pixels ----------

    method WritePixel(x: usize, y: usize, rgb: Rgb)
      requires Ready()
      modifies buffer
      ensures Picture() == if x < info.width && y < info.height
                           then SetPixel(old(Picture()), x, y, Encode(info, rgb)) else old(Picture())
      ensures x < info.width && y < info.height && info.bytesPerPixel > 3 ==>
                Offset(info, x, y) + 3 < buffer.Length && buffer[Offset(info, x, y) + 3] == 0
    {
      hide Times, Encode, Shown, Rows, Columns;
      if x >= info.width || y >= info.height {
        return;
      }
      ghost var before := buffer[..];
      OffsetInBounds(info, x, y, buffer.Length);
      var index: usize := Times(y, info.stride) + x;
      var offset: usize := Times(index, info.bytesPerPixel);
      assert offset == Offset(info, x, y);
      hide Offset;
      var colour := Encode(info, rgb);
      forall i | offset <= i < offset + info.Channels() {
        buffer[i] := colour[i - offset];
      }
      if info.bytesPerPixel > 3 {
        buffer[offset + 3] := 0;
      }
      assert buffer[offset..offset + info.Channels()] == colour;
      ShownAfterWrite(before, buffer[..], info, x, y, colour);
    }

    method InvertPixel(x: usize, y: usize)
      requires Ready()
      modifies buffer
      ensures Picture() == if x < info.width && y < info.height
                           then SetPixel(old(Picture()), x, y, Invert(old(Picture())[y][x])) else old(Picture())
    {
      hide Times, Rows, Columns;
      if x >= info.width || y >= info.height {
        return;
      }
      ghost var before := buffer[..];
      ghost var pixel := Picture()[y][x];
      OffsetInBounds(info, x, y, buffer.Length);
      var index: usize := Times(y, info.stride) + x;
      var offset: usize := Times(index, info.bytesPerPixel);
      assert offset == Offset(info, x, y);
      hide Offset;
      assert pixel == before[offset..offset + info.Channels()];
      hide Shown;
      forall i | offset <= i < offset + info.Channels() {
        buffer[i] := InvertByte(buffer[i]);
      }
      assert buffer[offset..offset + info.Channels()] == Invert(pixel);
      ShownAfterWrite(before, buffer[..], info, x, y, Invert(pixel));
    }

    /** The inner of the nested pixel loops. */
    method PaintRow(y: usize, x0: usize, x1: usize, paint: Paint)
      requires Ready() && x0 <= x1
      modifies buffer
      ensures Picture() == if y < info.height
                           then old(Picture())[y := PaintedRow(old(Picture())[y], info, y, x0, x1, paint)]
                           else old(Picture())
    {
      hide Encode, Ready, Shown;
      ghost var before := Picture();
      assert y < info.height ==> PaintedRow(before[y], info, y, x0, x0, paint) == before[y];
      for x := x0 to x1
        invariant Picture() == if y < info.height
                               then before[y := PaintedRow(before[y], info, y, x0, x, paint)] else before
      {
        WritePixel(x, y, paint(x, y));
        assert y < info.height && x < info.width ==>
            PaintedRow(before[y], info, y, x0, x, paint)[x := Encode(info, paint(x, y))]
            == PaintedRow(before[y], info, y, x0, x + 1, paint);
        assert y < info.height && x >= info.width ==>
            PaintedRow(before[y], info, y, x0, x, paint) == PaintedRow(before[y], info, y, x0, x + 1, paint);
      }
    }

    /** A nest of pixel loops over a rectangle. */
    method PaintRect(r: Rect, paint: Paint)
      requires Ready() && r.x0 <= r.x1 < USIZE_LIMIT && r.y0 <= r.y1 < USIZE_LIMIT
      modifies buffer
      ensures Picture() == Painted(old(Picture()), info, r, paint)
    {
      hide Encode, Ready, Shown, PaintedRow;
      ghost var before := Picture();
      assert Painted(before, info, r.(y1 := r.y0), paint) == before;
      for y := r.y0 to r.y1
        invariant Picture() == Painted(before, info, r.(y1 := y), paint)
      {
        PaintRow(y, r.x0, r.x1, paint);
        ghost var p, q := Painted(before, info, r.(y1 := y), paint), Painted(before, info, r.(y1 := y + 1), paint);
        if y < info.height {
          assert p[y] == before[y];
          assert p[y := PaintedRow(before[y], info, y, r.x0, r.x1, paint)] == q;
        } else {
          assert p == q;
        }
      }
    }

    method InvertRow(y: usize, x0: usize, x1: usize)
      requires Ready() && x0 <= x1
      modifies buffer
      ensures Picture() == if y < info.height then old(Picture())[y := InvertedRow(old(Picture())[y], x0, x1)]
                           else old(Picture())
    {
      hide Invert, Ready, Shown;
      ghost var before := Picture();
      assert y < info.height ==> InvertedRow(before[y], x0, x0) == before[y];
      for x := x0 to x1
        invariant Picture() == if y < info.height then before[y := InvertedRow(before[y], x0, x)] else before
      {
        InvertPixel(x, y);
        assert y < info.height && x < info.width ==>
            InvertedRow(before[y], x0, x)[x := Invert(before[y][x])] == InvertedRow(before[y], x0, x + 1);
        assert y < info.height && x >= info.width ==>
            InvertedRow(before[y], x0, x) == InvertedRow(before[y], x0, x + 1);
      }
    }

    method InvertRect(r: Rect)
      requires Ready() && r.x0 <= r.x1 < USIZE_LIMIT && r.y0 <= r.y1 < USIZE_LIMIT
      modifies buffer
      ensures Picture() == Inverted(old(Picture()), r)
    {
      hide Ready, Shown, InvertedRow;
      ghost var before := Picture();
      assert Inverted(before, r.(y1 := r.y0)) == before;
      for y := r.y0 to r.y1
        invariant Picture() == Inverted(before, r.(y1 := y))
      {
        InvertRow(y, r.x0, r.x1);
        ghost var p, q := Inverted(before, r.(y1 := y)), Inverted(before, r.(y1 := y + 1));
        if y < info.height {
          assert p[y] == before[y];
          assert p[y := InvertedRow(before[y], r.x0, r.x1)] == q;
        } else {
          assert p == q;
        }
      }
    }

    // ---------- console operations ----------

    /** `clear`: whatever was shown, the result is the empty grid without a cursor. */
    method Clear()
      requires Ready()
      modifies this`column, this`row, this`cursorVisible, this`grid, buffer
      ensures Valid() && !cursorVisible
      ensures grid == Cleared(Columns(info, font), Rows(info))
    {
      hide Painted, Screen, Shown, Columns, Rows, Cleared;
      ghost var before := Picture();
      PaintRect(Rect(0, info.width, 0, info.height), Plain());
      column, row, cursorVisible := BORDER, BORDER, false;
      grid := Cleared(Columns(info, font), Rows(info));
      ClearPicture(info, font, Columns(info, font), Rows(info), before);
      ClearedIsValid(Columns(info, font), Rows(info));
      ClearedPen(Columns(info, font), Rows(info));
    }

    /** `scroll`; `moved` is the picture between the copy and the clearing of its bottom rows. */
    method Scroll() returns (ghost moved: Pixels.Picture)
      requires Ready() && LINE_HEIGHT <= row
      modifies this`row, buffer
      ensures row == old(row) - LINE_HEIGHT
      ensures Sized(moved, info) && LINE_HEIGHT <= info.height
      ensures moved[..info.height - LINE_HEIGHT] == old(Picture())[LINE_HEIGHT..]
      ensures Picture() == Painted(moved, info, Rect(0, info.width, info.height - LINE_HEIGHT, info.height), Plain())
    {
      assert LINE_HEIGHT <= info.height;
      hide Shown, Times, Painted, Columns, Rows, Sized;
      ghost var before := buffer[..];
      TimesMonotone(LINE_HEIGHT, info.height, info.stride);
      TimesMonotone(Times(LINE_HEIGHT, info.stride), Times(info.height, info.stride), info.bytesPerPixel);
      TimesAtLeast(Times(LINE_HEIGHT, info.stride), info.bytesPerPixel);
      var pixels: usize := Times(LINE_HEIGHT, info.stride);
      var byteRows: usize := Times(pixels, info.bytesPerPixel);
      forall i | 0 <= i < buffer.Length - byteRows {
        buffer[i] := buffer[i + byteRows];
      }
      ShownAfterCopyUp(before, buffer[..], info, LINE_HEIGHT);
      moved := Picture();
      PaintRect(Rect(0, info.width, info.height - LINE_HEIGHT, info.height), Plain());
      row := row - LINE_HEIGHT;
    }

    /** `new_line`. */
    method StartLine()
      requires Valid() && !cursorVisible
      modifies this`column, this`row, this`grid, buffer
      ensures Valid()
      ensures grid == NewLine(old(grid))
    {
      ghost var columns, rows := Columns(info, font), Rows(info);
      ScrollTest(info, grid.row);
      NewLineIsBlank(grid, columns, rows);
      WordsFit(info, font, grid, buffer.Length);
      assert CellX(font, 0) == BORDER;
      hide Shown, Screen, Painted, Columns, Rows, Times;
      column := BORDER;
      row := row + FONT_HEIGHT + 2;
      var bottom: usize := row + FONT_HEIGHT + BORDER;
      if bottom > info.height {
        ghost var lines := grid.lines;
        ghost var moved := Scroll();
        ScrollPicture(info, font, lines, columns, moved);
      }
      grid := NewLine(grid);
    }

    /** Drawing one glyph at the pen, which must not be past the last column. */
    method DrawAtPen(c: byte)
      requires Valid() && !cursorVisible && grid.column < Columns(info, font)
      modifies this`column, this`grid, buffer
      ensures Valid()
      ensures grid == Put(old(grid), c)
    {
      hide Shown, Screen, Painted, Columns, Rows, Times, GlyphPaint;
      WordsFit(info, font, grid, buffer.Length);
      PenAtStart(font, grid.column + 1);
      DrawGlyph(info, font, grid.lines, grid.row, grid.column, c);
      PaintRect(Rect(column, column + font.glyphWidth, row, row + FONT_HEIGHT), GlyphPaint(font, c, column, row));
      column := column + font.Advance();
      grid := Put(grid, c);
    }

    /** `write_character`. */
    method WriteCharacter(c: byte)
      requires Valid() && !cursorVisible
      modifies this`column, this`row, this`grid, buffer
      ensures Valid()
      ensures grid == TextGrid.WriteCharacter(old(grid), c, Columns(info, font), Rows(info))
    {
      ghost var columns, rows := Columns(info, font), Rows(info);
      hide Shown, Screen, Columns, Rows, NewLine, Put;
      if c == NEWLINE {
        StartLine();
        return;
      }
      WordsFit(info, font, grid, buffer.Length);
      WrapTest(info, font, grid.column);
      var right: usize := column + font.Advance() + BORDER;
      if right > info.width {
        NewLineIsBlank(grid, columns, rows);
        StartLine();
      }
      DrawAtPen(c);
    }

    /** `backspace`. */
    method EraseBack()
      requires Valid() && !cursorVisible
      modifies this`column, this`grid, buffer
      ensures Valid()
      ensures grid == Erase(old(grid), Columns(info, font), Rows(info))
    {
      ghost var columns, rows := Columns(info, font), Rows(info);
      hide Shown, Screen, Painted, Columns, Rows, Times;
      WordsFit(info, font, grid, buffer.Length);
      PenAtStart(font, grid.column);
      if column <= BORDER {
        return;
      }
      var advance := font.Advance();
      column := Max(column - advance, BORDER);
      ghost var cell := grid.column - 1;
      assert column == CellX(font, cell);
      EraseGlyph(info, font, grid.lines, grid.row, cell);
      PaintRect(Rect(column, Min(column + advance, info.width), row, Min(row + FONT_HEIGHT, info.height)), Plain());
      grid := Erase(grid, columns, rows);
    }

    /** `write_str`. */
    method WriteStr(text: seq<Scalar>)
      requires Valid() && !cursorVisible
      modifies this`column, this`row, this`grid, buffer
      ensures Valid()
      ensures grid == Write(old(grid), text, Columns(info, font), Rows(info))
    {
      ghost var columns, rows, start := Columns(info, font), Rows(info), grid;
      hide Shown, Screen, Columns, Rows, TextGrid.WriteCharacter;
      for i := 0 to |text|
        invariant Valid()
        invariant grid == Write(start, text[..i], columns, rows)
      {
        assert text[..i + 1][..i] == text[..i];
        WriteOne(text[i]);
      }
      assert text[..|text|] == text;
    }

    /** The body of the loop in `write_str`. */
    method WriteOne(c: Scalar)
      requires Valid() && !cursorVisible
      modifies this`column, this`row, this`grid, buffer
      ensures Valid()
      ensures grid == WriteScalar(old(grid), c, Columns(info, font), Rows(info))
    {
      ghost var columns, rows := Columns(info, font), Rows(info);
      hide Shown, Screen, Columns, Rows, TextGrid.WriteCharacter;
      if c == RETURN {
        column := BORDER;
        grid := grid.(column := 0);
      } else if c == BACKSPACE {
        EraseBack();
      } else if c == TABULATOR {
        ghost var start := grid;
        for i := 0 to 4
          invariant Valid()
          invariant grid == WriteSpaces(start, i, columns, rows)
        {
          WriteCharacter(SPACE);
        }
      } else if c < 0x80 {
        WriteCharacter(c);
      } else {
        WriteCharacter(QUESTION);
      }
    }

    // ---------- the cursor ----------

    method ToggleCursor()
      requires Ready() && PenOk()
      modifies buffer
      ensures Picture() == Inverted(old(Picture()), Cursor())
    {
      hide Shown, Inverted, Columns, Rows, Times, Grid.Valid;
      WordsFit(info, font, grid, buffer.Length);
      InvertRect(Rect(column, Min(column + CURSOR_WIDTH, info.width), row, Min(row + FONT_HEIGHT, info.height)));
    }

    method ShowCursor()
      requires Valid()
      modifies this`cursorVisible, buffer
      ensures Valid() && cursorVisible
    {
      hide Shown, Inverted, Screen;
      if !cursorVisible {
        ToggleCursor();
        cursorVisible := true;
      }
    }

    method HideCursor()
      requires Valid()
      modifies this`cursorVisible, buffer
      ensures Valid() && !cursorVisible
      ensures Picture() == Text()
    {
      hide Shown, Inverted, Screen;
      if cursorVisible {
        InvertedTwice(Text(), Cursor());
        ToggleCursor();
        cursorVisible := false;
      }
    }

    /** `print`: hide the cursor, then write. */
    method Print(text: seq<Scalar>)
      requires Valid()
      modifies this, buffer
      ensures Valid() && !cursorVisible
      ensures grid == Write(old(grid), text, Columns(info, font), Rows(info))
    {
      HideCursor();
      WriteStr(text);
    }

    /** Any run of the console's public operations: every pixel is accounted for at the end, cursor included. */
    method Run(ops: seq<ConsoleOp>)
      requires Valid()
      modifies this, buffer
      ensures Valid()
      ensures grid == AfterOps(old(grid), ops, Columns(info, font), Rows(info))
      ensures cursorVisible == CursorAfter(old(cursorVisible), ops)
    {
      ghost var columns, rows, start, shown := Columns(info, font), Rows(info), grid, cursorVisible;
      hide Shown, Screen, Columns, Rows, Write;
      for i := 0 to |ops|
        invariant Valid()
        invariant grid == AfterOps(start, ops[..i], columns, rows)
        invariant cursorVisible == CursorAfter(shown, ops[..i])
      {
        assert ops[..i + 1][..i] == ops[..i];
        match ops[i]
        case PrintOp(text) => Print(text);
        case ClearOp => Clear();
        case ShowCursorOp => ShowCursor();
      }
      assert ops[..|ops|] == ops;
    }
  }

  lemma ClearedPen(columns: nat, rows: nat)
    ensures Cleared(columns, rows).row == 1 && Cleared(columns, rows).column == 0
  {
  }

  /** The pen's cell lies inside the borders. */
  lemma PenInside(info: Info, font: Font, g: Grid)
    requires Fits(info, font) && g.Valid(Columns(info, font), Rows(info))
    ensures 1 <= g.row && CellX(font, g.column) + BORDER <= info.width
    ensures LineY(g.row) + FONT_HEIGHT + BORDER <= info.height
  {
    QuotientAtLeast(info.width - 2 * BORDER, font.Advance(), g.column);
  }

  /** No sum the console forms around the pen leaves the machine word. */
  lemma WordsFit(info: Info, font: Font, g: Grid, length: nat)
    requires info.Describes(length) && Fits(info, font) && g.Valid(Columns(info, font), Rows(info))
    ensures 1 <= g.row && CellX(font, g.column) + BORDER <= info.width < SLICE_LIMIT
    ensures LineY(g.row) + FONT_HEIGHT + BORDER <= info.height < SLICE_LIMIT
    ensures font.Advance() <= info.width
  {
    PenInside(info, font, g);
    QuotientAtLeast(info.width - 2 * BORDER, font.Advance(), 1);
    assert Times(1, font.Advance()) == font.Advance();
    SidesFit(info, length);
  }

  lemma PenAtStart(font: Font, column: nat)
    ensures CellX(font, column) <= BORDER <==> column == 0
    ensures 0 < column ==> CellX(font, column - 1) == CellX(font, column) - font.Advance()
  {
  }

  lemma PictureShowsTheGrid(w: FramebufferWriter, x: nat, y: nat, i: nat)
    requires w.Valid() && x < w.info.width && y < w.info.height && i < w.info.Channels()
    ensures i < |w.Picture()[y][x]|
    ensures var colour := Encode(w.info, Colour(w.font, w.grid.lines, x, y))[i];
            w.Picture()[y][x][i] == if w.cursorVisible && w.Cursor().Has(x, y) then 255 - colour else colour
  {
    hide Shown, Encode, Colour, CursorRect, Inverted, Columns, Rows, Screen;
    ScreenAt(w.info, w.font, w.grid.lines, x, y);
    InvertedExactly(w.Text(), w.Cursor(), x, y, i);
  }

  /**
   * Every colour byte of the buffer: at (y * stride + x) * bytes_per_pixel + i stands byte i of the colour that the
   * text grid gives pixel (x, y), inverted exactly inside a visible cursor.
   */
  lemma EveryByteShowsTheGrid(w: FramebufferWriter, x: nat, y: nat, i: nat, at: nat)
    requires w.Valid() && x < w.info.width && y < w.info.height && i < w.info.Channels()
    requires StartsAt(w.info, x, y, at)
    ensures at + i < w.buffer.Length
    ensures var colour := Encode(w.info, Colour(w.font, w.grid.lines, x, y))[i];
            var inCursor := UnderCursor(w.font, w.grid.column, w.grid.row, x, y);
            w.buffer[at + i] == if w.cursorVisible && inCursor then 255 - colour else colour
  {
    hide StartsAt, UnderCursor, Shown, Encode, Colour, CursorRect, Columns, Rows;
    PictureShowsTheGrid(w, x, y, i);
    CursorPixels(w.info, w.font, w.grid.column, w.grid.row, x, y);
    hide FramebufferWriter.Valid, Grid.Valid;
    ShownExactly(w.buffer[..], w.info, x, y, i, at);
  }
}
