/** Editor and console together: what the screen row shows after every key event. */
module ShellScreen {
  import opened Machine
  import opened KeyEvents
  import opened History
  import opened Editing
  import Grid = TextGrid

  // The row holds the prompt and a full line.
  const ROW_NEEDED := |PROMPT| + LINE_CAPACITY

  predicate Blankish(cell: Grid.Cell) {
    cell == None || cell == Some(SPACE)
  }

  /** `cells` reads `text`, followed by blanks only. */
  ghost predicate Reads(cells: seq<Grid.Cell>, text: seq<byte>) {
    && |text| <= |cells|
    && (forall i :: 0 <= i < |text| ==> cells[i] == Some(text[i]))
    && (forall i :: |text| <= i < |cells| ==> Blankish(cells[i]))
  }

  /** The pen's row reads the prompt and the line, and the pen stands at the editor's cursor. */
  ghost predicate ShowsLine(e: Editor, g: Grid.Grid) {
    && g.row < |g.lines|
    && Reads(g.lines[g.row], PROMPT + e.Text())
    && g.column == |PROMPT| + |e.left|
  }

  /** The pen is at the start of a blank line. */
  ghost predicate AtFreshLine(g: Grid.Grid, columns: nat) {
    g.row < |g.lines| && g.column == 0 && g.lines[g.row] == Grid.BlankLine(columns)
  }

  // ---------- writing ----------

  lemma ReturnThenWrite(g: Grid.Grid, text: seq<byte>, columns: nat, rows: nat)
    requires g.Valid(columns, rows) && AllPrintable(text) && |text| <= columns
    ensures Grid.PlainText(text)
    ensures Grid.Write(g, [RETURN] + text, columns, rows) ==
            Grid.Grid(g.lines[g.row := Grid.Overlay(g.lines[g.row], 0, text)], g.row, |text|)
  {
    var start := g.(column := 0);
    assert Grid.Write(g, [RETURN], columns, rows) == start by {
      assert [RETURN][..0] == [];
      assert Grid.Write(g, [], columns, rows) == g;
    }
    hide Grid.Write, Grid.Overlay;
    Grid.WriteConcat(g, [RETURN], text, columns, rows);
    Grid.WritePlain(start, text, columns, rows);
  }

  /** The first pass of `redraw` covers the old text, the second moves the pen back to the cursor. */
  lemma RedrawShowsLine(g: Grid.Grid, e: Editor, shown: nat, columns: nat, rows: nat)
    requires g.Valid(columns, rows) && ROW_NEEDED <= columns
    requires AllPrintable(e.left) && AllPrintable(e.right)
    requires |e.Text()| <= LINE_CAPACITY && shown <= LINE_CAPACITY
    requires forall i :: |PROMPT| + shown <= i < columns ==> Blankish(g.lines[g.row][i])
    ensures ShowsLine(e, Grid.Write(g, RedrawText(e, shown), columns, rows))
  {
    var pad := Spaces(Max(0, shown - |e.Text()|));
    var first, second := PROMPT + e.Text() + pad, PROMPT + e.left;
    assert AllPrintable(PROMPT) && AllPrintable(pad);
    PrintableConcat(e.left, e.right);
    PrintableConcat(PROMPT, e.Text());
    PrintableConcat(PROMPT + e.Text(), pad);
    PrintableConcat(PROMPT, e.left);
    hide AllPrintable;
    assert RedrawText(e, shown) == ([RETURN] + first) + ([RETURN] + second);
    hide RedrawText;
    TwoPasses(g, first, second, columns, rows);
    hide Grid.Write;
    OverlayTwice(g.lines[g.row], PROMPT + e.Text(), pad, second);
  }

  lemma TwoPasses(g: Grid.Grid, first: seq<byte>, second: seq<byte>, columns: nat, rows: nat)
    requires g.Valid(columns, rows) && AllPrintable(first) && AllPrintable(second)
    requires |first| <= columns && |second| <= columns
    ensures Grid.PlainText(first) && Grid.PlainText(second)
    ensures Grid.Write(g, ([RETURN] + first) + ([RETURN] + second), columns, rows) ==
            Grid.Grid(g.lines[g.row := Grid.Overlay(Grid.Overlay(g.lines[g.row], 0, first), 0, second)],
                      g.row, |second|)
  {
    hide Grid.Write, AllPrintable;
    ReturnThenWrite(g, first, columns, rows);
    Grid.WriteConcat(g, [RETURN] + first, [RETURN] + second, columns, rows);
    ReturnThenWrite(Grid.Write(g, [RETURN] + first, columns, rows), second, columns, rows);
  }

  lemma PrintableConcat(a: seq<byte>, b: seq<byte>)
    requires AllPrintable(a) && AllPrintable(b)
    ensures AllPrintable(a + b)
  {
  }

  /** Drawing `text` and padding over a line, then a prefix of `text` again, leaves it reading `text`. */
  lemma OverlayTwice(line: seq<Grid.Cell>, text: seq<byte>, pad: seq<byte>, again: seq<byte>)
    requires Grid.PlainText(text + pad) && Grid.PlainText(again) && again <= text && |text| + |pad| <= |line|
    requires forall i :: 0 <= i < |pad| ==> pad[i] == SPACE
    requires forall i :: |text| + |pad| <= i < |line| ==> Blankish(line[i])
    ensures Reads(Grid.Overlay(Grid.Overlay(line, 0, text + pad), 0, again), text)
  {
    var twice := Grid.Overlay(Grid.Overlay(line, 0, text + pad), 0, again);
    forall i | 0 <= i < |line|
      ensures twice[i] == if i < |text| then Some(text[i]) else if i < |text| + |pad| then Some(SPACE) else line[i]
    {
    }
  }

  // ---------- one event ----------

  /** Output of a command: anything that ends at the start of a line, by a newline or by clearing the screen. */
  ghost predicate EndsAtLineStart(out: seq<Grid.ConsoleOp>) {
    out == [] || Last(out).ClearOp?
    || (Last(out).PrintOp? && Last(out).text != [] && Last(Last(out).text) == NEWLINE)
  }

  function OpsOf(effect: Effect, out: seq<Grid.ConsoleOp>): seq<Grid.ConsoleOp> {
    match effect
    case Print(text) => [Grid.PrintOp(text)]
    case Execute(_) => out
    case ShowCursor => [Grid.ShowCursorOp]
  }

  /** The console operations of one event; a submitted command prints `out`. */
  function Ops(effects: seq<Effect>, out: seq<Grid.ConsoleOp>): seq<Grid.ConsoleOp> {
    if effects == [] then [] else OpsOf(effects[0], out) + Ops(effects[1..], out)
  }

  lemma OpsCons(effect: Effect, rest: seq<Effect>, out: seq<Grid.ConsoleOp>)
    ensures Ops([effect] + rest, out) == OpsOf(effect, out) + Ops(rest, out)
  {
    assert ([effect] + rest)[1..] == rest;
  }

  /** Printing and then showing the cursor. */
  lemma PrintAndShow(text: seq<byte>, out: seq<Grid.ConsoleOp>, g: Grid.Grid, columns: nat, rows: nat)
    requires g.Valid(columns, rows)
    ensures Ops([Print(text), ShowCursor], out) == [Grid.PrintOp(text), Grid.ShowCursorOp]
    ensures Grid.AfterOps(g, [Grid.PrintOp(text), Grid.ShowCursorOp], columns, rows) ==
            Grid.Write(g, text, columns, rows)
  {
    OpsCons(Print(text), [ShowCursor], out);
    OpsCons(ShowCursor, [], out);
    assert [Print(text)] + [ShowCursor] == [Print(text), ShowCursor] && [ShowCursor] + [] == [ShowCursor];
    hide Grid.Write;
    AfterOneOp(g, Grid.PrintOp(text), columns, rows);
    Grid.AfterOpsConcat(g, [Grid.PrintOp(text)], [Grid.ShowCursorOp], columns, rows);
    AfterOneOp(Grid.AfterOps(g, [Grid.PrintOp(text)], columns, rows), Grid.ShowCursorOp, columns, rows);
    assert [Grid.PrintOp(text)] + [Grid.ShowCursorOp] == [Grid.PrintOp(text), Grid.ShowCursorOp];
  }

  lemma AfterOneOp(g: Grid.Grid, op: Grid.ConsoleOp, columns: nat, rows: nat)
    requires g.Valid(columns, rows)
    ensures Grid.AfterOps(g, [op], columns, rows) == Grid.AfterOp(g, op, columns, rows)
  {
    assert [op][..0] == [];
  }

  ghost function ScreenAfter(e: Editor, g: Grid.Grid, event: KeyEvent, out: seq<Grid.ConsoleOp>,
                             columns: nat, rows: nat): (h: Grid.Grid)
    requires g.Valid(columns, rows)
    ensures h.Valid(columns, rows)
  {
    Grid.AfterOps(g, Ops(Effects(e, event), out), columns, rows)
  }

  lemma CommandEndsFresh(g: Grid.Grid, out: seq<Grid.ConsoleOp>, columns: nat, rows: nat)
    requires g.Valid(columns, rows) && AtFreshLine(g, columns) && EndsAtLineStart(out)
    ensures AtFreshLine(Grid.AfterOps(g, out, columns, rows), columns)
  {
    if out != [] {
      var before := Grid.AfterOps(g, out[..|out| - 1], columns, rows);
      match Last(out)
      case ClearOp =>
      case PrintOp(text) =>
        NewlineEndsFresh(before, text, columns, rows);
    }
  }

  lemma NewlineEndsFresh(g: Grid.Grid, text: seq<Grid.Scalar>, columns: nat, rows: nat)
    requires g.Valid(columns, rows) && text != [] && Last(text) == NEWLINE
    ensures AtFreshLine(Grid.Write(g, text, columns, rows), columns)
  {
    var before := Grid.Write(g, text[..|text| - 1], columns, rows);
    Grid.NewLineIsBlank(before, columns, rows);
  }

  lemma PromptShowsLine(g: Grid.Grid, columns: nat, rows: nat, e: Editor)
    requires g.Valid(columns, rows) && ROW_NEEDED <= columns && AtFreshLine(g, columns)
    requires e.left == [] && e.right == []
    ensures ShowsLine(e, Grid.Write(g, PROMPT, columns, rows))
  {
    assert AllPrintable(PROMPT);
    Grid.WritePlain(g, PROMPT, columns, rows);
    assert PROMPT + e.Text() == PROMPT;
  }

  lemma EnterOps(e: Editor, out: seq<Grid.ConsoleOp>)
    ensures Ops(Effects(e, Enter), out) == [Grid.PrintOp([NEWLINE])] + out + [Grid.PrintOp(PROMPT), Grid.ShowCursorOp]
  {
    var tail := [Print(PROMPT), ShowCursor];
    OpsCons(Print([NEWLINE]), [Execute(e.Text())] + tail, out);
    OpsCons(Execute(e.Text()), tail, out);
    OpsCons(Print(PROMPT), [ShowCursor], out);
    OpsCons(ShowCursor, [], out);
    assert Effects(e, Enter) == [Print([NEWLINE])] + ([Execute(e.Text())] + tail);
    assert tail == [Print(PROMPT)] + [ShowCursor] && [ShowCursor] + [] == [ShowCursor];
  }

  lemma EnterShowsLine(e: Editor, g: Grid.Grid, out: seq<Grid.ConsoleOp>, columns: nat, rows: nat)
    requires g.Valid(columns, rows) && ROW_NEEDED <= columns && EndsAtLineStart(out)
    requires e.Valid()
    ensures ShowsLine(Apply(e, Enter), ScreenAfter(e, g, Enter, out, columns, rows))
  {
    hide Grid.Write, ShowsLine, Remember, Grid.AfterOps, Grid.Grid.Valid, EndsAtLineStart;
    var a, b := [Grid.PrintOp([NEWLINE])], [Grid.PrintOp(PROMPT), Grid.ShowCursorOp];
    EnterOps(e, out);
    Grid.AfterOpsConcat(g, a + out, b, columns, rows);
    Grid.AfterOpsConcat(g, a, out, columns, rows);
    AfterOneOp(g, Grid.PrintOp([NEWLINE]), columns, rows);
    NewlineEndsFresh(g, [NEWLINE], columns, rows);
    var g1 := Grid.AfterOps(g, a, columns, rows);
    CommandEndsFresh(g1, out, columns, rows);
    var g2 := Grid.AfterOps(g1, out, columns, rows);
    PromptShowsLine(g2, columns, rows, Apply(e, Enter));
    PrintAndShow(PROMPT, out, g2, columns, rows);
  }

  lemma RedrawingEvent(e: Editor, g: Grid.Grid, event: KeyEvent, out: seq<Grid.ConsoleOp>, columns: nat, rows: nat)
    requires g.Valid(columns, rows) && ROW_NEEDED <= columns
    requires e.Valid() && Clean(e) && IsClean(event) && ShowsLine(e, g)
    requires !event.Enter? && Redraws(e, event)
    ensures ShowsLine(Apply(e, event), ScreenAfter(e, g, event, out, columns, rows))
  {
    hide Apply, Redraws, RedrawText, Grid.Write, Grid.AfterOps, Ops, AllPrintable;
    var f := Apply(e, event);
    ApplyKeepsValid(e, event);
    ApplyKeepsClean(e, event);
    BlanksAfterLine(e, g, columns, rows);
    RedrawShowsLine(g, f, |e.Text()|, columns, rows);
    PrintAndShow(RedrawText(f, |e.Text()|), out, g, columns, rows);
  }

  lemma BlanksAfterLine(e: Editor, g: Grid.Grid, columns: nat, rows: nat)
    requires g.Valid(columns, rows) && ShowsLine(e, g)
    ensures forall i :: |PROMPT| + |e.Text()| <= i < columns ==> Blankish(g.lines[g.row][i])
  {
  }

  /** An event that does not redraw leaves text and cursor alone. */
  lemma QuietEvent(e: Editor, event: KeyEvent)
    requires e.Valid() && !event.Enter? && !Redraws(e, event)
    ensures Apply(e, event) == e
  {
  }

  /** After every event the row still reads the prompt and the line, with the pen at the cursor. */
  lemma EventShowsLine(e: Editor, g: Grid.Grid, event: KeyEvent, out: seq<Grid.ConsoleOp>, columns: nat, rows: nat)
    requires g.Valid(columns, rows) && ROW_NEEDED <= columns && EndsAtLineStart(out)
    requires e.Valid() && Clean(e) && IsClean(event) && ShowsLine(e, g)
    ensures ShowsLine(Apply(e, event), ScreenAfter(e, g, event, out, columns, rows))
  {
    hide Apply, Redraws, RedrawText, Clean, ShowsLine, EndsAtLineStart;
    if event.Enter? {
      EnterShowsLine(e, g, out, columns, rows);
    } else if Redraws(e, event) {
      RedrawingEvent(e, g, event, out, columns, rows);
    } else {
      QuietEvent(e, event);
    }
  }

  /** Every event that prints anything ends by showing the cursor, so the cursor is never left hidden. */
  lemma EventKeepsCursor(e: Editor, event: KeyEvent, out: seq<Grid.ConsoleOp>)
    ensures Grid.CursorAfter(true, Ops(Effects(e, event), out))
  {
    var text := RedrawText(Apply(e, event), |e.Text()|);
    hide Apply, RedrawText, Redraws, Grid.AfterOps, Grid.Write;
    if event.Enter? {
      EnterOps(e, out);
    } else if Redraws(e, event) {
      Grid.ClearedIsValid(1, 1);
      PrintAndShow(text, out, Grid.Cleared(1, 1), 1, 1);
    }
  }

  // ---------- whole sessions ----------

  // What the command submitted by event number i prints, if that event submits one.
  type Outputs = nat -> seq<Grid.ConsoleOp>

  /** The screen after a session. */
  ghost function SessionScreen(e: Editor, g: Grid.Grid, events: seq<KeyEvent>, outs: Outputs,
                               columns: nat, rows: nat): (h: Grid.Grid)
    requires g.Valid(columns, rows)
    ensures h.Valid(columns, rows)
  {
    if events == [] then g
    else
      var n := |events| - 1;
      ScreenAfter(Session(e, events[..n]), SessionScreen(e, g, events[..n], outs, columns, rows),
                  events[n], outs(n), columns, rows)
  }

  /**
   * Over every clean event stream and whatever the commands print, the pen's row reads the prompt followed by the
   * edited line and blanks, and the pen stands at the editing cursor.
   */
  lemma {:induction false} EverySessionShowsItsLine(e: Editor, g: Grid.Grid, events: seq<KeyEvent>, outs: Outputs,
                                                    columns: nat, rows: nat)
    requires g.Valid(columns, rows) && ROW_NEEDED <= columns
    requires e.Valid() && Clean(e) && ShowsLine(e, g)
    requires forall i :: 0 <= i < |events| ==> IsClean(events[i])
    requires forall i: nat :: EndsAtLineStart(outs(i))
    ensures ShowsLine(Session(e, events), SessionScreen(e, g, events, outs, columns, rows))
  {
    hide ShowsLine, EndsAtLineStart, ScreenAfter, Apply, IsClean, Clean;
    if events == [] {
    } else {
      var n := |events| - 1;
      var front := events[..n];
      EverySessionShowsItsLine(e, g, front, outs, columns, rows);
      SessionKeepsValid(e, front);
      SubmittedArePrintable(e, front);
      EventShowsLine(Session(e, front), SessionScreen(e, g, front, outs, columns, rows),
                     events[n], outs(n), columns, rows);
    }
  }

  /** The greeting ends its line, so the first prompt shows the empty editor. */
  lemma FirstPromptShowsLine(g: Grid.Grid, greeting: seq<Grid.Scalar>, columns: nat, rows: nat)
    requires g.Valid(columns, rows) && ROW_NEEDED <= columns
    requires greeting != [] && Last(greeting) == NEWLINE
    ensures ShowsLine(EMPTY, Grid.Write(Grid.Write(g, greeting, columns, rows), PROMPT, columns, rows))
    ensures EMPTY.Valid() && Clean(EMPTY)
  {
    NewlineEndsFresh(g, greeting, columns, rows);
    PromptShowsLine(Grid.Write(g, greeting, columns, rows), columns, rows, EMPTY);
  }
}
