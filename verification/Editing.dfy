/** The line editor as a value: a two-sided text, a newest-first history and a saved draft. */
module Editing {
  import opened Machine
  import opened KeyEvents
  import opened History

  const PROMPT: seq<byte> := [0x73, 0x6f, 0x6c, 0x3e, 0x20] // "sol> "
  const TAB_WIDTH := 4

  /** The text left and right of the cursor, and where in the history the user is browsing. */
  datatype Editor = Editor(
    left: seq<byte>,
    right: seq<byte>,
    browsing: Option<nat>,
    draft: seq<byte>,
    history: seq<Line>)
  {
    function Text(): seq<byte> {
      left + right
    }

    ghost predicate Valid() {
      && |left| + |right| <= LINE_CAPACITY
      && |draft| <= LINE_CAPACITY
      && |history| <= HISTORY_CAPACITY
      // while browsing, the text is the entry browsed to
      && (browsing.Some? ==> browsing.value < |history| && Text() == history[browsing.value])
    }
  }

  const EMPTY := Editor([], [], None, [], [])

  function Spaces(n: nat): seq<byte> {
    seq(n, _ => SPACE)
  }

  /** Insert before the cursor, if the whole insertion fits. */
  function Insert(e: Editor, s: seq<byte>): Editor {
    if |e.Text()| + |s| <= LINE_CAPACITY then e.(left := e.left + s, browsing := None) else e
  }

  function Recall(e: Editor): Editor {
    match Older(e.browsing, |e.history|)
    case None => e
    case Some(p) =>
      if p < |e.history| then
        e.(left := e.history[p], right := [], browsing := Some(p),
           draft := if e.browsing.None? then e.Text() else e.draft)
      else e
  }

  function Forward(e: Editor): Editor {
    match Newer(e.browsing)
    case None => e
    case Some(None) => e.(left := e.draft, right := [], browsing := None)
    case Some(Some(p)) => if p < |e.history| then e.(left := e.history[p], right := [], browsing := Some(p)) else e
  }

  /** What one key event does to the editor. */
  function Apply(e: Editor, event: KeyEvent): Editor {
    match event
    case Character(b) => Insert(e, [b])
    case Tab => Insert(e, Spaces(TAB_WIDTH))
    case Backspace => if e.left == [] then e else e.(left := e.left[..|e.left| - 1], browsing := None)
    case Delete => if e.right == [] then e else e.(right := e.right[1..], browsing := None)
    case Left => if e.left == [] then e else e.(left := e.left[..|e.left| - 1], right := [Last(e.left)] + e.right)
    case Right => if e.right == [] then e else e.(left := e.left + [e.right[0]], right := e.right[1..])
    case Home => e.(left := [], right := e.Text())
    case End => e.(left := e.Text(), right := [])
    case Up => Recall(e)
    case Down => Forward(e)
    case Enter =>
      if |e.Text()| <= LINE_CAPACITY
      then e.(left := [], right := [], browsing := None, history := Remember(e.history, e.Text()))
      else e
  }

  /** The same text with the cursor after its first k bytes. */
  function Moved(e: Editor, k: nat): Editor
    requires k <= |e.Text()|
  {
    e.(left := e.Text()[..k], right := e.Text()[k..])
  }

  /** Characters and tabs insert a run of one byte. */
  lemma OneKeyInserts(e: Editor)
    ensures forall b: byte :: Apply(e, Character(b)) == Insert(e, seq(1, _ => b))
    ensures Apply(e, Tab) == Insert(e, seq(TAB_WIDTH, _ => SPACE))
  {
    forall b: byte
      ensures Apply(e, Character(b)) == Insert(e, seq(1, _ => b))
    {
      assert [b] == seq(1, _ => b);
    }
  }

  lemma CutBeforeLast(left: seq<byte>, right: seq<byte>)
    requires left != []
    ensures (left + right)[..|left| - 1] == left[..|left| - 1]
    ensures (left + right)[|left| - 1..] == [Last(left)] + right
  {
  }

  lemma CutAfterFirst(left: seq<byte>, right: seq<byte>)
    requires right != []
    ensures (left + right)[..|left| + 1] == left + [right[0]]
    ensures (left + right)[|left| + 1..] == right[1..]
  {
  }

  lemma LeftMoves(e: Editor)
    ensures Apply(e, Left) == if e.left == [] then e else Moved(e, |e.left| - 1)
  {
    if e.left != [] {
      CutBeforeLast(e.left, e.right);
    }
  }

  lemma RightMoves(e: Editor)
    ensures Apply(e, Right) == if e.right == [] then e else Moved(e, |e.left| + 1)
  {
    if e.right != [] {
      CutAfterFirst(e.left, e.right);
    }
  }

  lemma HomeAndEndMove(e: Editor)
    ensures Apply(e, Home) == Moved(e, 0) && Apply(e, End) == Moved(e, |e.Text()|)
  {
    var text := e.Text();
    assert text[..0] == [] && text[0..] == text && text[..|text|] == text && text[|text|..] == [];
  }

  /** The four cursor keys only move the cursor: by one, or to an end. */
  lemma CursorKeysMove(e: Editor)
    ensures Apply(e, Left) == if e.left == [] then e else Moved(e, |e.left| - 1)
    ensures Apply(e, Right) == if e.right == [] then e else Moved(e, |e.left| + 1)
    ensures Apply(e, Home) == Moved(e, 0) && Apply(e, End) == Moved(e, |e.Text()|)
  {
    hide Apply, Moved;
    LeftMoves(e);
    RightMoves(e);
    HomeAndEndMove(e);
  }

  // ---------- what the shell does besides ----------

  datatype Effect = Print(text: seq<byte>) | Execute(line: seq<byte>) | ShowCursor

  /** The event redraws the line. */
  predicate Redraws(e: Editor, event: KeyEvent) {
    match event
    case Character(b) => |e.Text()| < LINE_CAPACITY
    case Tab => |e.Text()| + TAB_WIDTH <= LINE_CAPACITY
    case Backspace => e.left != []
    case Left => e.left != []
    case Delete => e.right != []
    case Right => e.right != []
    case Up => e.history != []
    case Down => e.browsing.Some?
    case Enter => false
    case _ => true
  }

  /** The text of `redraw`, given how long the line shown before was. */
  function RedrawText(e: Editor, shown: nat): seq<byte> {
    [RETURN] + PROMPT + e.Text() + Spaces(Max(0, shown - |e.Text()|)) + [RETURN] + PROMPT + e.left
  }

  function Effects(e: Editor, event: KeyEvent): seq<Effect> {
    if event.Enter? then [Print([NEWLINE]), Execute(e.Text()), Print(PROMPT), ShowCursor]
    else if Redraws(e, event) then [Print(RedrawText(Apply(e, event), |e.Text()|)), ShowCursor]
    else []
  }

  /** The two deleting keys, with what they print. */
  lemma DeletingKeys(e: Editor)
    ensures e.left == [] ==> Apply(e, Backspace) == e && Effects(e, Backspace) == []
    ensures e.left != [] ==>
              && Apply(e, Backspace) == e.(left := e.left[..|e.left| - 1], browsing := None)
              && Effects(e, Backspace) == [Print(RedrawText(Apply(e, Backspace), |e.Text()|)), ShowCursor]
    ensures e.right == [] ==> Apply(e, Delete) == e && Effects(e, Delete) == []
    ensures e.right != [] ==>
              && Apply(e, Delete) == e.(right := e.right[1..], browsing := None)
              && Effects(e, Delete) == [Print(RedrawText(Apply(e, Delete), |e.Text()|)), ShowCursor]
  {
  }

  // ---------- whole sessions ----------

  /** Every event keeps the editor valid: the text fits, and browsing shows the entry it points at. */
  lemma ApplyKeepsValid(e: Editor, event: KeyEvent)
    requires e.Valid()
    ensures Apply(e, event).Valid()
  {
    var f := Apply(e, event);
    match event
    case Left => assert e.left != [] ==> f.Text() == e.Text();
    case Right => assert e.right != [] ==> f.Text() == e.Text();
    case Home => assert f.Text() == e.Text();
    case End => assert f.Text() == e.Text();
    case _ =>
  }

  function Session(e: Editor, events: seq<KeyEvent>): Editor {
    if events == [] then e else Apply(Session(e, events[..|events| - 1]), Last(events))
  }

  /** The lines submitted by a session, in order. */
  function Submitted(e: Editor, events: seq<KeyEvent>): seq<seq<byte>> {
    if events == [] then []
    else
      var front := events[..|events| - 1];
      Submitted(e, front) + if Last(events).Enter? then [Session(e, front).Text()] else []
  }

  lemma {:induction false} SessionKeepsValid(e: Editor, events: seq<KeyEvent>)
    requires e.Valid()
    ensures Session(e, events).Valid()
  {
    if events == [] {
    } else {
      SessionKeepsValid(e, events[..|events| - 1]);
      ApplyKeepsValid(Session(e, events[..|events| - 1]), Last(events));
    }
  }

  // ---------- browsing is lossless ----------

  predicate IsNavigation(event: KeyEvent) {
    event in {Up, Down, Left, Right, Home, End}
  }

  /** Reached from line `text` by navigation only: outside the history it shows `text`, inside it saved it. */
  ghost predicate Remembers(e: Editor, text: seq<byte>) {
    e.Valid() && if e.browsing.None? then e.Text() == text else e.draft == text
  }

  lemma NavigationRemembers(e: Editor, event: KeyEvent, text: seq<byte>)
    requires Remembers(e, text) && IsNavigation(event)
    ensures Remembers(Apply(e, event), text)
    ensures Apply(e, event).history == e.history
  {
    ApplyKeepsValid(e, event);
    var f := Apply(e, event);
    match event
    case Left => assert e.left != [] ==> f.Text() == e.Text();
    case Right => assert e.right != [] ==> f.Text() == e.Text();
    case Home => assert f.Text() == e.Text();
    case End => assert f.Text() == e.Text();
    case _ =>
  }

  lemma {:induction false} NavigationSession(e: Editor, events: seq<KeyEvent>)
    requires e.Valid() && e.browsing.None?
    requires forall i :: 0 <= i < |events| ==> IsNavigation(events[i])
    ensures Remembers(Session(e, events), e.Text()) && Session(e, events).history == e.history
  {
    hide Apply, IsNavigation;
    if events == [] {
    } else {
      var front := events[..|events| - 1];
      NavigationSession(e, front);
      NavigationRemembers(Session(e, front), Last(events), e.Text());
    }
  }

  /**
   * Browsing is lossless: navigation that ends outside the history leaves the text as it was, and navigation
   * that ends inside shows the entry it ended at, out of an unchanged history.
   */
  lemma BrowsingIsLossless(e: Editor, events: seq<KeyEvent>)
    requires e.Valid() && e.browsing.None?
    requires forall i :: 0 <= i < |events| ==> IsNavigation(events[i])
    ensures var f := Session(e, events);
            if f.browsing.None? then f.Text() == e.Text()
            else f.browsing.value < |e.history| && f.Text() == e.history[f.browsing.value]
  {
    NavigationSession(e, events);
  }

  function Repeat(event: KeyEvent, n: nat): seq<KeyEvent> {
    seq(n, _ => event)
  }

  lemma {:induction false} SessionConcat(e: Editor, a: seq<KeyEvent>, b: seq<KeyEvent>)
    ensures Session(e, a + b) == Session(Session(e, a), b)
    decreases |b|
  {
    hide Apply;
    if b == [] {
      assert a + b == a;
    } else {
      assert (a + b)[..|a + b| - 1] == a + b[..|b| - 1];
      SessionConcat(e, a, b[..|b| - 1]);
    }
  }

  lemma UpOnce(e: Editor)
    requires e.Valid() && e.history != []
    ensures var f := Apply(e, Up);
            && f.browsing == Some(if e.browsing.None? then 0 else Min(e.browsing.value + 1, |e.history| - 1))
            && f.draft == (if e.browsing.None? then e.Text() else e.draft) && f.history == e.history && f.right == []
  {
  }

  lemma {:induction false} UpsReach(e: Editor, n: nat)
    requires e.Valid() && e.browsing.None? && 0 < n && e.history != []
    ensures Session(e, Repeat(Up, n)).browsing == Some(Min(n, |e.history|) - 1)
    ensures Session(e, Repeat(Up, n)).draft == e.Text() && Session(e, Repeat(Up, n)).history == e.history
    ensures Session(e, Repeat(Up, n)).right == []
  {
    hide Apply, Editor.Valid, Editor.Text;
    var front := Repeat(Up, n - 1);
    assert Repeat(Up, n)[..n - 1] == front;
    SessionKeepsValid(e, front);
    if n == 1 {
      assert Session(e, front) == e;
      UpOnce(e);
    } else {
      UpsReach(e, n - 1);
      UpOnce(Session(e, front));
    }
  }

  lemma {:induction false} DownsLeave(e: Editor, n: nat)
    requires e.Valid() && e.browsing.Some? && n <= e.browsing.value + 1
    ensures Session(e, Repeat(Down, n)).browsing ==
            if n == e.browsing.value + 1 then None else Some(e.browsing.value - n)
    ensures Session(e, Repeat(Down, n)).draft == e.draft && Session(e, Repeat(Down, n)).history == e.history
    ensures n == e.browsing.value + 1 ==> Session(e, Repeat(Down, n)).Text() == e.draft
    ensures 0 < n ==> Session(e, Repeat(Down, n)).right == []
  {
    var events := Repeat(Down, n);
    if n == 0 {
    } else {
      assert events[..n - 1] == Repeat(Down, n - 1);
      DownsLeave(e, n - 1);
      SessionKeepsValid(e, Repeat(Down, n - 1));
    }
  }

  /** n times Up shows the n-th newest entry, as many times Down restores the line, each with the cursor at its end. */
  lemma UpThenDownRestores(e: Editor, n: nat)
    requires e.Valid() && e.browsing.None? && 0 < n <= |e.history|
    ensures Session(e, Repeat(Up, n)).left == e.history[n - 1] && Session(e, Repeat(Up, n)).right == []
    ensures var f := Session(e, Repeat(Up, n) + Repeat(Down, n));
            f.left == e.left + e.right && f.right == [] && f.browsing == None
  {
    UpsReach(e, n);
    SessionKeepsValid(e, Repeat(Up, n));
    DownsLeave(Session(e, Repeat(Up, n)), n);
    SessionConcat(e, Repeat(Up, n), Repeat(Down, n));
  }

  // ---------- what typing puts into the line ----------

  function Typed(text: seq<byte>): seq<KeyEvent> {
    seq(|text|, i requires 0 <= i < |text| => Character(text[i]))
  }

  /** Typed text goes in before the cursor byte by byte, until the line holds 80. */
  lemma {:induction false} TypingInserts(e: Editor, text: seq<byte>)
    requires |e.left| + |e.right| <= 80
    ensures var f, n := Session(e, Typed(text)), Min(|text|, 80 - |e.left| - |e.right|);
            && f.left == e.left + text[..n] && f.right == e.right
            && f.browsing == (if n == 0 then e.browsing else None)
            && f.draft == e.draft && f.history == e.history
    decreases |text|
  {
    if text == [] {
    } else {
      var front := text[..|text| - 1];
      assert Typed(text)[..|text| - 1] == Typed(front);
      TypingInserts(e, front);
      if |text| <= 80 - |e.left| - |e.right| {
        assert text == front + [Last(text)];
        assert e.left + text == e.left + front + [Last(text)];
      }
    }
  }

  /** A tab is four spaces, or nothing where they do not fit. */
  lemma TabInserts(e: Editor)
    ensures var f := Apply(e, Tab);
            if |e.left| + |e.right| + 4 <= 80
            then f.left == e.left + [0x20, 0x20, 0x20, 0x20] && f.right == e.right && f.browsing == None
            else f == e
  {
    assert Spaces(4) == [0x20, 0x20, 0x20, 0x20];
  }

  // ---------- edits that undo each other ----------

  /** Typing a character that fits and deleting it again restores both sides of the cursor. */
  lemma TypeThenErase(e: Editor, b: byte)
    requires |e.Text()| < LINE_CAPACITY
    ensures var f := Apply(Apply(e, Character(b)), Backspace);
            f.left == e.left && f.right == e.right
    ensures var f := Apply(Apply(Apply(e, Character(b)), Left), Delete);
            f.left == e.left && f.right == e.right
  {
    assert (e.left + [b])[..|e.left|] == e.left;
    assert ([b] + e.right)[1..] == e.right;
  }

  // ---------- the submitted lines ----------

  lemma OnlyEnterRecords(e: Editor, event: KeyEvent)
    requires e.Valid()
    ensures |e.Text()| <= LINE_CAPACITY
    ensures Apply(e, event).history == if event.Enter? then Remember(e.history, e.Text()) else e.history
  {
  }

  lemma AfterOneMoreLine(lines: seq<Line>, line: Line)
    ensures AfterLines(lines + [line]) == Remember(AfterLines(lines), line)
  {
    assert (lines + [line])[..|lines|] == lines;
  }

  /** Whatever is typed, each submitted line fits the buffer and the history is made of exactly those lines. */
  lemma {:induction false} HistoryOfSession(events: seq<KeyEvent>)
    ensures forall i :: 0 <= i < |Submitted(EMPTY, events)| ==> |Submitted(EMPTY, events)[i]| <= LINE_CAPACITY
    ensures Session(EMPTY, events).history == AfterLines(Submitted(EMPTY, events))
  {
    hide Remember, Apply;
    if events == [] {
    } else {
      hide AfterLines;
      var front := events[..|events| - 1];
      HistoryOfSession(front);
      SessionKeepsValid(EMPTY, front);
      OnlyEnterRecords(Session(EMPTY, front), Last(events));
      AfterOneMoreLine(Submitted(EMPTY, front), Session(EMPTY, front).Text());
      assert !Last(events).Enter? ==> Submitted(EMPTY, events) == Submitted(EMPTY, front);
    }
  }

  /** The lines handed to `execute`, in order. */
  function Executed(effects: seq<Effect>): seq<seq<byte>> {
    if effects == [] then []
    else Executed(effects[..|effects| - 1]) + if Last(effects).Execute? then [Last(effects).line] else []
  }

  function SessionEffects(e: Editor, events: seq<KeyEvent>): seq<Effect> {
    if events == [] then []
    else
      var front := events[..|events| - 1];
      SessionEffects(e, front) + Effects(Session(e, front), Last(events))
  }

  lemma {:induction false} ExecutedConcat(a: seq<Effect>, b: seq<Effect>)
    ensures Executed(a + b) == Executed(a) + Executed(b)
    decreases |b|
  {
    if b == [] {
      assert a + b == a;
    } else {
      assert (a + b)[..|a + b| - 1] == a + b[..|b| - 1];
      ExecutedConcat(a, b[..|b| - 1]);
    }
  }

  /** Enter alone executes, and what it executes is the whole line on both sides of the cursor. */
  lemma OnlyEnterExecutes(e: Editor, event: KeyEvent)
    ensures Executed(Effects(e, event)) == if event == Enter then [e.left + e.right] else []
  {
    var text := RedrawText(Apply(e, event), |e.Text()|);
    assert Executed([]) == [];
    if event == Enter {
      var a, b := [Print([NEWLINE]), Execute(e.Text())], [Print(PROMPT), ShowCursor];
      ExecutedConcat(a, b);
      assert Effects(e, event) == a + b;
      assert a[..1] == [Print([NEWLINE])] && [Print([NEWLINE])][..0] == [] && b[..1] == [Print(PROMPT)];
      assert [Print(PROMPT)][..0] == [];
    } else if Redraws(e, event) {
      assert [Print(text), ShowCursor][..1] == [Print(text)] && [Print(text)][..0] == [];
    }
  }

  /** Over every session the executed lines are the submitted ones: at each Enter, the whole line. */
  lemma {:induction false} ExecutedAreSubmitted(e: Editor, events: seq<KeyEvent>)
    ensures Executed(SessionEffects(e, events)) == Submitted(e, events)
  {
    hide Apply, Effects;
    if events == [] {
    } else {
      var front := events[..|events| - 1];
      ExecutedAreSubmitted(e, front);
      ExecutedConcat(SessionEffects(e, front), Effects(Session(e, front), Last(events)));
      OnlyEnterExecutes(Session(e, front), Last(events));
      hide Executed;
    }
  }

  lemma {:induction false} NothingSubmitted(e: Editor, events: seq<KeyEvent>)
    requires Enter !in events
    ensures Submitted(e, events) == []
  {
    if events == [] {
    } else {
      NothingSubmitted(e, events[..|events| - 1]);
    }
  }

  lemma NoEnter(text: seq<byte>, moves: seq<KeyEvent>)
    requires forall i :: 0 <= i < |moves| ==> IsNavigation(moves[i])
    ensures Enter !in Typed(text) + moves
  {
    assert Enter !in Typed(text) && Enter !in moves;
  }

  lemma TypedLineStays(e: Editor, text: seq<byte>, moves: seq<KeyEvent>)
    requires e.Valid() && e.left == e.right == [] && e.browsing.None? && |text| <= 80
    requires forall i :: 0 <= i < |moves| ==> IsNavigation(moves[i])
    requires Session(e, Typed(text) + moves).browsing.None?
    ensures Session(e, Typed(text) + moves).Text() == text
  {
    hide Session, Editor.Valid, Typed;
    TypingInserts(e, text);
    SessionKeepsValid(e, Typed(text));
    SessionConcat(e, Typed(text), moves);
    assert text[..|text|] == text && [] + text == text;
    BrowsingIsLossless(Session(e, Typed(text)), moves);
  }

  lemma EnterSubmits(e: Editor, events: seq<KeyEvent>)
    ensures Submitted(e, events + [Enter]) == Submitted(e, events) + [Session(e, events).Text()]
  {
    assert (events + [Enter])[..|events|] == events;
  }

  /** Text typed on an empty line, navigated in at will and entered, is executed exactly as it was typed. */
  lemma TypedLineIsExecuted(e: Editor, text: seq<byte>, moves: seq<KeyEvent>)
    requires e.Valid() && e.left == e.right == [] && e.browsing.None? && |text| <= 80
    requires forall i :: 0 <= i < |moves| ==> IsNavigation(moves[i])
    requires Session(e, Typed(text) + moves).browsing.None?
    ensures Executed(SessionEffects(e, Typed(text) + moves + [Enter])) == [text]
  {
    hide Session, Editor.Valid, SessionEffects, Executed, Submitted, Typed, IsNavigation;
    var events := Typed(text) + moves;
    NoEnter(text, moves);
    TypedLineStays(e, text, moves);
    NothingSubmitted(e, events);
    EnterSubmits(e, events);
    ExecutedAreSubmitted(e, events + [Enter]);
  }

  ghost predicate AllPrintable(s: seq<byte>) {
    forall i :: 0 <= i < |s| ==> IsPrintable(s[i])
  }

  ghost predicate Clean(e: Editor) {
    && AllPrintable(e.left) && AllPrintable(e.right) && AllPrintable(e.draft)
    && forall i :: 0 <= i < |e.history| ==> AllPrintable(e.history[i])
  }

  lemma ApplyKeepsClean(e: Editor, event: KeyEvent)
    requires Clean(e) && IsClean(event)
    ensures Clean(Apply(e, event)) && AllPrintable(e.Text())
  {
    hide Blank;
  }

  /** If every event is clean, every line handed to `execute` is printable ASCII. */
  lemma {:induction false} SubmittedArePrintable(e: Editor, events: seq<KeyEvent>)
    requires Clean(e)
    requires forall i :: 0 <= i < |events| ==> IsClean(events[i])
    ensures Clean(Session(e, events))
    ensures forall i :: 0 <= i < |Submitted(e, events)| ==> AllPrintable(Submitted(e, events)[i])
  {
    hide Apply, Clean, AllPrintable;
    if events == [] {
    } else {
      var front := events[..|events| - 1];
      SubmittedArePrintable(e, front);
      ApplyKeepsClean(Session(e, front), Last(events));
    }
  }
}
