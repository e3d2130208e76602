/** The shell's editing loop over fixed arrays, proved against the two-sided text of Editing. */
module EditLoop {
  import opened Machine
  import opened KeyEvents
  import opened History
  import opened Editing

  /** `copy_within(from..to, dest)`: the destination may overlap the source. */
  method CopyWithin(a: array<byte>, from: nat, to: nat, dest: nat)
    requires from <= to <= a.Length && dest + (to - from) <= a.Length
    modifies a
    ensures a[dest..dest + (to - from)] == old(a[from..to])
    ensures a[..dest] == old(a[..dest])
    ensures a[dest + (to - from)..] == old(a[dest + (to - from)..])
  {
    forall i | dest <= i < dest + (to - from) {
      a[i] := a[from + (i - dest)];
    }
  }

  /** Shift the tail a[cursor..length] right by n and fill the gap. */
  method OpenGap(a: array<byte>, cursor: nat, length: nat, n: nat, fill: byte)
    requires cursor <= length && length + n <= a.Length
    modifies a
    ensures a[..cursor + n] == old(a[..cursor]) + seq(n, _ => fill)
    ensures a[cursor + n..length + n] == old(a[cursor..length])
  {
    CopyWithin(a, cursor, length, cursor + n);
    ghost var tail := a[cursor + n..length + n];
    forall i | cursor <= i < cursor + n {
      a[i] := fill;
    }
    assert a[cursor + n..length + n] == tail;
  }

  /** Drop a[at] by shifting the rest of a[..length] left. */
  method CloseGap(a: array<byte>, at: nat, length: nat)
    requires at < length <= a.Length
    modifies a
    ensures a[..at] == old(a[..at])
    ensures a[at..length - 1] == old(a[at + 1..length])
  {
    CopyWithin(a, at + 1, length, at);
  }

  class LineEditor {
    const line: array<byte>
    var length: nat
    var cursor: nat
    var displayed: nat
    const history: CommandHistory
    var historyPosition: Option<nat>
    const draft: array<byte>
    var draftLength: nat

    /** The buffers and indices fit each other. */
    ghost predicate Shape()
      reads this, history, history.entries, history.lengths
    {
      && line != draft
      && line.Length == LINE_CAPACITY && draft.Length == LINE_CAPACITY
      && cursor <= length <= LINE_CAPACITY && draftLength <= LINE_CAPACITY
      && history.Valid()
    }

    ghost predicate Valid()
      reads this, line, draft, history, history.entries, history.lengths
      ensures Valid() ==> Shape()
    {
      Shape() && displayed == length && View().Valid()
    }

    /** The editor value these fields stand for. */
    ghost function View(): Editor
      reads this, line, draft, history, history.entries, history.lengths
      requires Shape()
    {
      Editor(line[..cursor], line[cursor..length], historyPosition, draft[..draftLength], history.Recent())
    }

    constructor ()
      ensures Valid() && View() == EMPTY
      ensures fresh(line) && fresh(draft) && fresh(history) && fresh(history.entries) && fresh(history.lengths)
    {
      line := new byte[LINE_CAPACITY](_ => 0);
      draft := new byte[LINE_CAPACITY](_ => 0);
      history := new CommandHistory();
      length, cursor, displayed, historyPosition, draftLength := 0, 0, 0, None, 0;
    }

    /** `redraw`, returning what it prints. */
    method Redraw() returns (effects: seq<Effect>)
      requires Shape()
      modifies this`displayed
      ensures displayed == length
      ensures effects == [Print(RedrawText(View(), old(displayed))), ShowCursor]
    {
      var padding := [];
      for i := length to Max(length, displayed)
        invariant padding == Spaces(i - length)
      {
        padding := padding + [SPACE];
      }
      var text := [RETURN] + PROMPT + line[..length] + padding + [RETURN] + PROMPT + line[..cursor];
      assert View().Text() == line[..length];
      displayed := length;
      effects := [Print(text), ShowCursor];
    }

    /** Character and Tab: shift the tail right and fill the gap, if it fits. */
    method InsertRun(fill: byte, n: nat) returns (effects: seq<Effect>)
      requires Valid() && 0 < n
      modifies this, line
      ensures Valid()
      ensures View() == Insert(old(View()), seq(n, _ => fill))
      ensures effects == if old(length) + n <= LINE_CAPACITY
                         then [Print(RedrawText(View(), old(length))), ShowCursor] else []
    {
      hide CommandHistory.Valid, CommandHistory.Recent, RedrawText;
      if length + n > LINE_CAPACITY {
        return [];
      }
      OpenGap(line, cursor, length, n, fill);
      length := length + n;
      cursor := cursor + n;
      historyPosition := None;
      effects := Redraw();
    }

    method Backspace() returns (effects: seq<Effect>)
      requires Valid()
      modifies this, line
      ensures Valid()
      ensures View() == Apply(old(View()), KeyEvent.Backspace)
      ensures effects == Effects(old(View()), KeyEvent.Backspace)
    {
      hide CommandHistory.Valid, CommandHistory.Recent, RedrawText, Apply, Effects;
      ghost var before := View();
      DeletingKeys(before);
      if cursor == 0 {
        return [];
      }
      assert before.left[..cursor - 1] == line[..cursor - 1];
      CloseGap(line, cursor - 1, length);
      length := length - 1;
      cursor := cursor - 1;
      historyPosition := None;
      assert View() == before.(left := before.left[..cursor], browsing := None);
      effects := Redraw();
    }

    method DeleteForward() returns (effects: seq<Effect>)
      requires Valid()
      modifies this, line
      ensures Valid()
      ensures View() == Apply(old(View()), Delete)
      ensures effects == Effects(old(View()), Delete)
    {
      hide CommandHistory.Valid, CommandHistory.Recent, RedrawText, Apply, Effects;
      ghost var before := View();
      DeletingKeys(before);
      if cursor == length {
        return [];
      }
      assert before.right[1..] == line[cursor + 1..length];
      CloseGap(line, cursor, length);
      length := length - 1;
      historyPosition := None;
      assert View() == before.(right := before.right[1..], browsing := None);
      effects := Redraw();
    }

    /** Left, Right, Home and End: move the cursor and redraw. */
    method MoveTo(target: nat) returns (effects: seq<Effect>)
      requires Valid() && target <= length
      modifies this`cursor, this`displayed
      ensures Valid()
      ensures target <= |old(View()).Text()| && View() == Moved(old(View()), target)
      ensures effects == [Print(RedrawText(View(), old(length))), ShowCursor]
    {
      hide CommandHistory.Valid, CommandHistory.Recent, RedrawText;
      assert View().Text() == line[..length];
      assert line[..length][..target] == line[..target] && line[..length][target..] == line[target..length];
      cursor := target;
      assert View().Text() == line[..length];
      effects := Redraw();
    }

    /** The history entry at `position` becomes the line. */
    method ShowEntry(position: nat) returns (effects: seq<Effect>)
      requires Shape() && position < history.count
      modifies this, line
      ensures Valid()
      ensures View() == old(View()).(left := old(history.Recent())[position], right := [], browsing := Some(position))
      ensures effects == [Print(RedrawText(View(), old(displayed))), ShowCursor]
    {
      assert history.count <= HISTORY_CAPACITY;
      hide CommandHistory.Valid, CommandHistory.Recent, RedrawText;
      historyPosition := Some(position);
      length := history.CopyInto(position, line);
      cursor := length;
      assert line[cursor..length] == [];
      assert View().Text() == line[..length];
      effects := Redraw();
    }

    method RecallOlder() returns (effects: seq<Effect>)
      requires Valid()
      modifies this, line, draft
      ensures Valid()
      ensures View() == Apply(old(View()), Up)
      ensures effects == Effects(old(View()), Up)
    {
      hide CommandHistory.Valid, CommandHistory.Recent, RedrawText;
      assert View().Text() == line[..length];
      var position, newDraftLength := history.Previous(historyPosition, line, length, draft, draftLength);
      draftLength := newDraftLength;
      if position.None? {
        return [];
      }
      effects := ShowEntry(position.value);
    }

    method RecallNewer() returns (effects: seq<Effect>)
      requires Valid()
      modifies this, line
      ensures Valid()
      ensures View() == Apply(old(View()), Down)
      ensures effects == Effects(old(View()), Down)
    {
      hide CommandHistory.Valid, CommandHistory.Recent, RedrawText;
      var position := history.Next(historyPosition);
      if position.None? {
        return [];
      }
      if position.value.Some? {
        effects := ShowEntry(position.value.value);
        return;
      }
      historyPosition := None;
      forall i | 0 <= i < draftLength {
        line[i] := draft[i];
      }
      length := draftLength;
      cursor := length;
      assert line[..length] == draft[..draftLength] && line[cursor..length] == [];
      effects := Redraw();
    }

    method Submit() returns (effects: seq<Effect>)
      requires Valid()
      modifies this, history, history.entries, history.lengths
      ensures Valid()
      ensures View() == Apply(old(View()), Enter)
      ensures effects == Effects(old(View()), Enter)
    {
      hide CommandHistory.Valid, CommandHistory.Recent, RedrawText, Editor.Valid;
      ApplyKeepsValid(View(), Enter);
      var submitted := line[..length];
      assert View().Text() == submitted;
      history.Push(submitted);
      length, cursor, displayed, historyPosition := 0, 0, 0, None;
      assert line[..0] == [] && line[0..0] == [];
      effects := [Print([NEWLINE]), Execute(submitted), Print(PROMPT), ShowCursor];
    }

    method MoveCursor(event: KeyEvent) returns (effects: seq<Effect>)
      requires Valid() && event in {Left, Right, Home, End}
      modifies this`cursor, this`displayed
      ensures Valid()
      ensures View() == Apply(old(View()), event)
      ensures effects == Effects(old(View()), event)
    {
      hide CommandHistory.Valid, CommandHistory.Recent, RedrawText, Apply, Editor.Valid, Moved;
      CursorKeysMove(View());
      assert |View().Text()| == length;
      effects := [];
      match event
      case Left =>
        if cursor > 0 {
          effects := MoveTo(cursor - 1);
        }
      case Right =>
        if cursor < length {
          effects := MoveTo(cursor + 1);
        }
      case Home =>
        effects := MoveTo(0);
      case End =>
        effects := MoveTo(length);
    }

    /** The body of the event loop in `run`. */
    method HandleEvent(event: KeyEvent) returns (effects: seq<Effect>)
      requires Valid()
      modifies this, line, draft, history, history.entries, history.lengths
      ensures Valid()
      ensures View() == Apply(old(View()), event)
      ensures effects == Effects(old(View()), event)
    {
      hide CommandHistory.Valid, CommandHistory.Recent, RedrawText, Apply, Editor.Valid;
      OneKeyInserts(View());
      match event
      case Enter =>
        effects := Submit();
      case Backspace =>
        effects := Backspace();
      case Delete =>
        effects := DeleteForward();
      case Tab =>
        effects := InsertRun(SPACE, TAB_WIDTH);
      case Character(b) =>
        effects := InsertRun(b, 1);
      case Up =>
        effects := RecallOlder();
      case Down =>
        effects := RecallNewer();
      case _ =>
        effects := MoveCursor(event);
    }
  }
}
