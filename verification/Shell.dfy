/** From scancodes to pixels: the keyboard, the queue, the editor and the console put together. */
module Shell {
  import opened Machine
  import opened KeyEvents
  import opened History
  import opened Editing
  import opened EditLoop
  import opened ShellScreen
  import opened Framebuffer
  import opened Rendering
  import Queue = KeyQueue
  import Codes = Scancodes
  import Grid = TextGrid

  // ---------- the loop of `run` ----------

  /** One key event: edit, then print; a submitted command prints `out`. */
  method HandleKey(editor: LineEditor, console: FramebufferWriter, event: KeyEvent, out: seq<Grid.ConsoleOp>)
    requires editor.Valid() && console.Valid()
    requires console.buffer != editor.line && console.buffer != editor.draft
    modifies editor, editor.line, editor.draft
    modifies editor.history, editor.history.entries, editor.history.lengths
    modifies console, console.buffer
    ensures editor.Valid() && console.Valid()
    ensures editor.View() == Apply(old(editor.View()), event)
    ensures console.grid == ScreenAfter(old(editor.View()), old(console.grid), event, out,
                                        Columns(console.info, console.font), Rows(console.info))
    ensures old(console.cursorVisible) ==> console.cursorVisible
  {
    hide Apply, Effects, Ops, Columns, Rows, Pixels.Shown, Screen, Grid.AfterOps, Grid.CursorAfter;
    EventKeepsCursor(editor.View(), event, out);
    var effects := editor.HandleEvent(event);
    console.Run(Ops(effects, out));
  }

  // ---------- events that arrive while the loop runs ----------

  /** What pushing `arrived` one by one leaves in a queue: whatever does not fit is dropped. */
  function Fed(queued: seq<KeyEvent>, arrived: seq<KeyEvent>): (q: seq<KeyEvent>)
    ensures |q| <= |queued| + |arrived|
  {
    if arrived == [] then queued
    else
      var q := Fed(queued, arrived[..|arrived| - 1]);
      if |q| < Queue.CAPACITY - 1 then q + [Last(arrived)] else q
  }

  /** That is everything, cut to the 255 events that fit. */
  lemma {:induction false} FedExactly(queued: seq<KeyEvent>, arrived: seq<KeyEvent>)
    requires |queued| <= 255
    ensures Fed(queued, arrived) == (queued + arrived)[..Min(255, |queued| + |arrived|)]
    decreases |arrived|
  {
    if arrived == [] {
      assert queued + arrived == queued;
    } else {
      var front := arrived[..|arrived| - 1];
      FedExactly(queued, front);
      assert queued + arrived == (queued + front) + [Last(arrived)];
    }
  }

  function Total(arrivals: seq<seq<KeyEvent>>): nat {
    if arrivals == [] then 0 else |arrivals[0]| + Total(arrivals[1..])
  }

  function First(arrivals: seq<seq<KeyEvent>>): seq<KeyEvent> {
    if arrivals == [] then [] else arrivals[0]
  }

  function Rest(arrivals: seq<seq<KeyEvent>>): (rest: seq<seq<KeyEvent>>)
    ensures Total(arrivals) == |First(arrivals)| + Total(rest)
  {
    if arrivals == [] then [] else arrivals[1..]
  }

  /** The events one run of the loop handles, when `arrivals[i]` arrives while it handles event i. */
  function Served(queued: seq<KeyEvent>, arrivals: seq<seq<KeyEvent>>): seq<KeyEvent>
    decreases |queued| + Total(arrivals)
  {
    if queued == [] then [] else [queued[0]] + Served(Fed(queued[1..], First(arrivals)), Rest(arrivals))
  }

  /** Without arrivals these are the events that were queued. */
  lemma {:induction false} ServedAlone(queued: seq<KeyEvent>)
    ensures Served(queued, []) == queued
  {
    if queued == [] {
    } else {
      ServedAlone(queued[1..]);
    }
  }

  function Joined(arrivals: seq<seq<KeyEvent>>): (all: seq<KeyEvent>)
    ensures |all| == Total(arrivals)
  {
    if arrivals == [] then [] else arrivals[0] + Joined(arrivals[1..])
  }

  lemma OneServed(queued: seq<KeyEvent>, arrivals: seq<seq<KeyEvent>>)
    requires queued != []
    ensures Served(queued, arrivals) == [queued[0]] + Served(Fed(queued[1..], First(arrivals)), Rest(arrivals))
    ensures Joined(arrivals) == First(arrivals) + Joined(Rest(arrivals))
  {
  }

  lemma Regroup(first: KeyEvent, rest: seq<KeyEvent>, arrived: seq<KeyEvent>, later: seq<KeyEvent>)
    ensures [first] + (rest + arrived + later) == [first] + rest + (arrived + later)
  {
  }

  /** While all of them fit, the queued events come first, then the arriving ones in their order. */
  lemma {:induction false} ServedInOrder(queued: seq<KeyEvent>, arrivals: seq<seq<KeyEvent>>)
    requires |arrivals| <= |queued| && |queued| + Total(arrivals) <= 255
    ensures Served(queued, arrivals) == queued + Joined(arrivals)
    decreases |queued| + Total(arrivals)
  {
    if queued == [] {
    } else {
      OneServed(queued, arrivals);
      hide Served, Fed, Joined;
      var rest, arrived := queued[1..], First(arrivals);
      FedExactly(rest, arrived);
      assert (rest + arrived)[..|rest| + |arrived|] == rest + arrived;
      ServedInOrder(rest + arrived, Rest(arrivals));
      Regroup(queued[0], rest, arrived, Joined(Rest(arrivals)));
      assert queued == [queued[0]] + rest;
    }
  }

  /** The keyboard interrupts pushing events, between two instructions of the main loop. */
  method Arrive(queue: Queue.InputQueue, arrived: seq<KeyEvent>)
    requires queue.Valid()
    modifies queue, queue.events
    ensures queue.Valid() && queue.Queued() == Fed(old(queue.Queued()), arrived)
  {
    hide Queue.InputQueue.Queued;
    ghost var before := queue.Queued();
    for i := 0 to |arrived|
      invariant queue.Valid() && queue.Queued() == Fed(before, arrived[..i])
    {
      assert arrived[..i + 1][..i] == arrived[..i];
      queue.Push(arrived[i]);
    }
    assert arrived[..|arrived|] == arrived;
  }

  /** Handle one event while others arrive, then take the next. */
  method HandleThenPop(queue: Queue.InputQueue, editor: LineEditor, console: FramebufferWriter, event: KeyEvent,
                       out: seq<Grid.ConsoleOp>, arrived: seq<KeyEvent>) returns (next: Option<KeyEvent>)
    requires queue.Valid() && editor.Valid() && console.Valid()
    requires console.buffer != editor.line && console.buffer != editor.draft
    modifies queue, queue.events, editor, editor.line, editor.draft
    modifies editor.history, editor.history.entries, editor.history.lengths
    modifies console, console.buffer
    ensures editor.Valid() && console.Valid() && queue.Valid()
    ensures editor.View() == Apply(old(editor.View()), event)
    ensures console.grid == ScreenAfter(old(editor.View()), old(console.grid), event, out,
                                        Columns(console.info, console.font), Rows(console.info))
    ensures old(console.cursorVisible) ==> console.cursorVisible
    ensures Popped(Fed(old(queue.Queued()), arrived), next, queue.Queued())
  {
    hide Apply, ScreenAfter, Columns, Rows, Grid.Grid.Valid, Fed, Queue.InputQueue.Queued;
    hide LineEditor.Valid, LineEditor.Shape, LineEditor.View, FramebufferWriter.Valid, FramebufferWriter.Ready;
    HandleKey(editor, console, event, out);
    Arrive(queue, arrived);
    next := queue.Pop();
  }

  /** Taking the oldest of `queued`, if any, gave `next` and left `left`. */
  ghost predicate Popped(queued: seq<KeyEvent>, next: Option<KeyEvent>, left: seq<KeyEvent>) {
    if queued == [] then next == None && left == [] else next == Some(queued[0]) && left == queued[1..]
  }

  /** What is still to be served once `next` has been taken. */
  ghost function ToServe(next: Option<KeyEvent>, left: seq<KeyEvent>, arrivals: seq<seq<KeyEvent>>): seq<KeyEvent> {
    match next
    case None => []
    case Some(event) => [event] + Served(Fed(left, First(arrivals)), Rest(arrivals))
  }

  lemma PoppedServes(queued: seq<KeyEvent>, next: Option<KeyEvent>, left: seq<KeyEvent>, arrivals: seq<seq<KeyEvent>>)
    requires Popped(queued, next, left)
    ensures Served(queued, arrivals) == ToServe(next, left, arrivals)
    ensures next.Some? ==> |left| < |queued|
  {
  }

  /**
   * The inner loop of `run`: handle events until the queue is empty. `arrivals[i]` are the events IRQ1 pushes while
   * event i is handled, and `outs(i)` is what event i makes a command print.
   */
  method Drain(queue: Queue.InputQueue, editor: LineEditor, console: FramebufferWriter, outs: Outputs,
               arrivals: seq<seq<KeyEvent>>) returns (handled: seq<KeyEvent>)
    requires queue.Valid() && editor.Valid() && console.Valid()
    requires console.buffer != editor.line && console.buffer != editor.draft
    modifies queue, queue.events, editor, editor.line, editor.draft
    modifies editor.history, editor.history.entries, editor.history.lengths
    modifies console, console.buffer
    ensures editor.Valid() && console.Valid() && queue.Valid() && queue.Queued() == []
    ensures handled == Served(old(queue.Queued()), arrivals)
    ensures editor.View() == Session(old(editor.View()), handled)
    ensures console.grid == SessionScreen(old(editor.View()), old(console.grid), handled, outs,
                                          Columns(console.info, console.font), Rows(console.info))
    ensures old(console.cursorVisible) ==> console.cursorVisible
  {
    ghost var all, e, g := Served(queue.Queued(), arrivals), editor.View(), console.grid;
    ghost var columns, rows := Columns(console.info, console.font), Rows(console.info);
    NoEventsYet(e, g, outs, columns, rows);
    hide Session, SessionScreen, Apply, ScreenAfter, Columns, Rows, Grid.Grid.Valid, Served, Fed, Total;
    hide LineEditor.Valid, LineEditor.Shape, LineEditor.View, FramebufferWriter.Valid, FramebufferWriter.Ready;
    hide Queue.InputQueue.Queued;
    ghost var queued := queue.Queued();
    var next := queue.Pop();
    PoppedServes(queued, next, queue.Queued(), arrivals);
    var pending := arrivals;
    handled := [];
    hide Popped, ToServe;
    while next.Some?
      invariant editor.Valid() && console.Valid() && queue.Valid()
      invariant handled + ToServe(next, queue.Queued(), pending) == all
      invariant next.None? ==> queue.Queued() == []
      invariant editor.View() == Session(e, handled)
      invariant console.grid == SessionScreen(e, g, handled, outs, columns, rows)
      invariant old(console.cursorVisible) ==> console.cursorVisible
      decreases |queue.Queued()| + Total(pending), next.Some?
    {
      ghost var left := queue.Queued();
      var event := next.value;
      OneMoreEvent(e, g, handled, event, outs, columns, rows);
      next := HandleThenPop(queue, editor, console, event, outs(|handled|), First(pending));
      ServedOne(handled, event, left, pending, next, queue.Queued());
      handled := handled + [event];
      pending := Rest(pending);
    }
    NothingToServe(queue.Queued(), pending);
    assert handled + [] == handled;
  }

  lemma NothingToServe(left: seq<KeyEvent>, arrivals: seq<seq<KeyEvent>>)
    ensures ToServe(None, left, arrivals) == []
  {
  }

  lemma ServedOne(handled: seq<KeyEvent>, event: KeyEvent, left: seq<KeyEvent>, arrivals: seq<seq<KeyEvent>>,
                  next: Option<KeyEvent>, left': seq<KeyEvent>)
    requires Popped(Fed(left, First(arrivals)), next, left')
    ensures handled + ToServe(Some(event), left, arrivals) == handled + [event] + ToServe(next, left', Rest(arrivals))
    ensures next.Some? ==> |left'| + Total(Rest(arrivals)) < |left| + Total(arrivals)
    ensures next.None? ==> left' == [] && Total(Rest(arrivals)) <= Total(arrivals)
  {
    hide Served, Fed, First, Rest, Total, Popped;
    var queued := Fed(left, First(arrivals));
    PoppedServes(queued, next, left', Rest(arrivals));
    PoppedLeaves(queued, next, left');
    assert handled + ([event] + Served(queued, Rest(arrivals))) == handled + [event] + Served(queued, Rest(arrivals));
  }

  lemma PoppedLeaves(queued: seq<KeyEvent>, next: Option<KeyEvent>, left: seq<KeyEvent>)
    requires Popped(queued, next, left)
    ensures next.None? ==> left == []
    ensures next.Some? ==> |left| < |queued|
  {
  }

  lemma NoEventsYet(e: Editor, g: Grid.Grid, outs: Outputs, columns: nat, rows: nat)
    requires g.Valid(columns, rows)
    ensures Session(e, []) == e && SessionScreen(e, g, [], outs, columns, rows) == g
  {
  }

  lemma OneMoreEvent(e: Editor, g: Grid.Grid, handled: seq<KeyEvent>, event: KeyEvent, outs: Outputs,
                     columns: nat, rows: nat)
    requires g.Valid(columns, rows)
    ensures Session(e, handled + [event]) == Apply(Session(e, handled), event)
    ensures SessionScreen(e, g, handled + [event], outs, columns, rows) ==
            ScreenAfter(Session(e, handled), SessionScreen(e, g, handled, outs, columns, rows),
                        event, outs(|handled|), columns, rows)
  {
    hide Apply, ScreenAfter, Grid.Grid.Valid;
    assert (handled + [event])[..|handled|] == handled;
  }

  // ---------- from scancodes to commands ----------

  /** Every event handed to `push` in the first n steps came out of the scancode stream. */
  ghost predicate PushesFrom(steps: seq<Queue.Step>, codes: seq<byte>) {
    forall i :: 0 <= i < |steps| && steps[i].BeginPushStep? ==> steps[i].event in Codes.Events(codes)
  }

  /**
   * If IRQ1 pushes the events of the scancode stream in order and none was dropped, then in every interleaving the
   * main loop has popped exactly the first events that the stream types.
   */
  lemma TypedKeysArrive(states: seq<Queue.State>, steps: seq<Queue.Step>, codes: seq<byte>, i: nat)
    requires |states| == |steps| + 1 && Queue.IsRun(states, steps) && i < |states|
    requires Queue.Pushed(steps[..i]) <= Codes.Events(codes) && states[i].drops == 0
    ensures states[i].returned <= Codes.Events(codes)
  {
    hide Queue.IsRun, Queue.Pushed, Codes.Events, Queue.Published;
    Queue.ReturnedArePushed(states, steps, i);
  }

  /** All events in the producer's hands, accepted or returned are clean. */
  ghost predicate CarriesClean(s: Queue.State) {
    && (s.producer.PLoadTail? || s.producer.PWrite? || s.producer.PStore? ==> IsClean(s.producer.event))
    && (forall i :: 0 <= i < |s.accepted| ==> IsClean(s.accepted[i]))
  }

  lemma StepCarriesClean(s: Queue.State, t: Queue.State, step: Queue.Step)
    requires CarriesClean(s) && Queue.Next(s, t, step)
    requires step.BeginPushStep? ==> IsClean(step.event)
    ensures CarriesClean(t)
  {
    hide IsClean;
  }

  lemma {:induction false} RunCarriesClean(states: seq<Queue.State>, steps: seq<Queue.Step>, codes: seq<byte>, i: nat)
    requires |states| == |steps| + 1 && Queue.IsRun(states, steps) && PushesFrom(steps, codes) && i < |states|
    ensures CarriesClean(states[i])
    decreases i
  {
    hide Queue.IsRun, Queue.Next, CarriesClean, IsClean;
    if i == 0 {
      Queue.RunStarts(states, steps);
      StartsClean();
    } else {
      RunCarriesClean(states, steps, codes, i - 1);
      Queue.RunSteps(states, steps, i - 1);
      Codes.StreamIsClean(codes);
      StepCarriesClean(states[i - 1], states[i], steps[i - 1]);
    }
  }

  lemma StartsClean()
    ensures CarriesClean(Queue.Init())
  {
  }

  lemma PoppedAreClean(states: seq<Queue.State>, steps: seq<Queue.Step>, codes: seq<byte>, i: nat)
    requires |states| == |steps| + 1 && Queue.IsRun(states, steps) && PushesFrom(steps, codes) && i < |states|
    ensures forall k :: 0 <= k < |states[i].returned| ==> IsClean(states[i].returned[k])
  {
    hide Queue.IsRun, Queue.Next, IsClean;
    RunCarriesClean(states, steps, codes, i);
    Queue.RunInv(states, steps, i);
    var s := states[i];
    assert s.returned == s.accepted[..|s.returned|];
    hide Queue.Inv;
  }

  /**
   * For every scancode stream and every interleaving of IRQ1 with the main loop, whatever the shell has popped so far
   * makes it submit printable ASCII only, so `execute` never meets invalid UTF-8.
   */
  lemma EveryCommandIsPrintable(states: seq<Queue.State>, steps: seq<Queue.Step>, codes: seq<byte>, i: nat)
    requires |states| == |steps| + 1 && Queue.IsRun(states, steps) && PushesFrom(steps, codes) && i < |states|
    ensures var lines := Submitted(EMPTY, states[i].returned);
            forall k :: 0 <= k < |lines| ==> AllPrintable(lines[k]) && |lines[k]| <= LINE_CAPACITY
  {
    hide Queue.IsRun, Queue.Next, IsClean;
    PoppedAreClean(states, steps, codes, i);
    assert Clean(EMPTY);
    SubmittedArePrintable(EMPTY, states[i].returned);
    HistoryOfSession(states[i].returned);
  }

  /**
   * For every scancode stream and every interleaving of IRQ1 with the main loop, the screen row reads the prompt and
   * the line edited by the events popped so far, with the pen at the cursor.
   */
  lemma EveryRunShowsItsLine(states: seq<Queue.State>, steps: seq<Queue.Step>, codes: seq<byte>, i: nat,
                             g: Grid.Grid, outs: Outputs, columns: nat, rows: nat)
    requires |states| == |steps| + 1 && Queue.IsRun(states, steps) && PushesFrom(steps, codes) && i < |states|
    requires g.Valid(columns, rows) && ROW_NEEDED <= columns && ShowsLine(EMPTY, g)
    requires forall n: nat :: EndsAtLineStart(outs(n))
    ensures ShowsLine(Session(EMPTY, states[i].returned),
                      SessionScreen(EMPTY, g, states[i].returned, outs, columns, rows))
  {
    hide Queue.IsRun, Queue.Next, ShowsLine, EndsAtLineStart;
    PoppedAreClean(states, steps, codes, i);
    assert EMPTY.Valid() && Clean(EMPTY);
    EverySessionShowsItsLine(EMPTY, g, states[i].returned, outs, columns, rows);
  }
}
