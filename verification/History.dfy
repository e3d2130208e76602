/** The command history: a ring of 16 fixed-size rows against a bounded newest-first list. */
module History {
  import opened Machine

  const LINE_CAPACITY := 80
  const HISTORY_CAPACITY := 16

  type Line = s: seq<byte> | |s| <= LINE_CAPACITY witness []

  // ---------- the list ----------

  predicate IsWhitespace(b: byte) {
    b == 0x20 || b == 0x09 || b == 0x0a || b == 0x0c || b == 0x0d
  }

  predicate Blank(line: Line) {
    forall i :: 0 <= i < |line| ==> IsWhitespace(line[i])
  }

  /** Recording a submitted line in a newest-first list. */
  function Remember(recent: seq<Line>, line: Line): (r: seq<Line>)
    ensures |recent| <= HISTORY_CAPACITY ==> |r| <= HISTORY_CAPACITY
  {
    if Blank(line) || (recent != [] && recent[0] == line) then recent
    else ([line] + recent)[..Min(HISTORY_CAPACITY, |recent| + 1)]
  }

  /** The history after submitting `lines`, oldest first. */
  function AfterLines(lines: seq<Line>): seq<Line> {
    if lines == [] then [] else Remember(AfterLines(lines[..|lines| - 1]), Last(lines))
  }

  /** A line of nothing but ASCII white space changes nothing; any other line becomes the newest entry. */
  lemma OnlyBlankLinesAreForgotten(recent: seq<Line>, line: Line)
    ensures (forall i :: 0 <= i < |line| ==> line[i] in {0x09, 0x0a, 0x0c, 0x0d, 0x20}) ==>
              Remember(recent, line) == recent
    ensures (exists i :: 0 <= i < |line| && line[i] !in {0x09, 0x0a, 0x0c, 0x0d, 0x20}) ==>
              Remember(recent, line) != [] && Remember(recent, line)[0] == line
  {
    if i :| 0 <= i < |line| && line[i] !in {0x09, 0x0a, 0x0c, 0x0d, 0x20} {
      assert !IsWhitespace(line[i]);
      assert !Blank(line);
    }
  }

  // What it should hold: blank lines removed, then immediate repeats, then the last 16 of those.

  function NonBlank(lines: seq<Line>): seq<Line> {
    if lines == [] then []
    else NonBlank(lines[..|lines| - 1]) + if Blank(Last(lines)) then [] else [Last(lines)]
  }

  function Collapsed(lines: seq<Line>): seq<Line> {
    if |lines| <= 1 then lines
    else
      var front := lines[..|lines| - 1];
      Collapsed(front) + if Last(front) == Last(lines) then [] else [Last(lines)]
  }

  function Newest(lines: seq<Line>, n: nat): seq<Line> {
    if n == 0 || lines == [] then [] else [Last(lines)] + Newest(lines[..|lines| - 1], n - 1)
  }

  lemma {:induction false} CollapsedKeepsLast(lines: seq<Line>)
    requires lines != []
    ensures Collapsed(lines) != [] && Last(Collapsed(lines)) == Last(lines)
  {
    if |lines| <= 1 {
    } else {
      CollapsedKeepsLast(lines[..|lines| - 1]);
    }
  }

  lemma ConsTake(line: Line, lines: seq<Line>, n: nat)
    ensures [line] + lines[..Min(n, |lines|)] == ([line] + lines)[..Min(n + 1, |lines| + 1)]
  {
  }

  lemma {:induction false} NewestPrefix(lines: seq<Line>, m: nat, n: nat)
    requires m <= n
    ensures Newest(lines, m) == Newest(lines, n)[..Min(m, |Newest(lines, n)|)]
    decreases m
  {
    if m == 0 || lines == [] {
    } else {
      var front := lines[..|lines| - 1];
      NewestPrefix(front, m - 1, n - 1);
      ConsTake(Last(lines), Newest(front, n - 1), m - 1);
    }
  }

  lemma NewestUnfolds(lines: seq<Line>, line: Line, n: nat)
    requires 0 < n
    ensures Newest(lines + [line], n) == [line] + Newest(lines, n - 1)
  {
    assert (lines + [line])[..|lines|] == lines;
  }

  lemma NewestAppend(lines: seq<Line>, line: Line, n: nat)
    requires 0 < n
    ensures Newest(lines + [line], n) == ([line] + Newest(lines, n))[..Min(n, |Newest(lines, n)| + 1)]
  {
    hide Newest;
    NewestUnfolds(lines, line, n);
    NewestPrefix(lines, n - 1, n);
    ConsTake(line, Newest(lines, n), n - 1);
  }

  lemma CollapsedStep(lines: seq<Line>, line: Line)
    ensures Collapsed(lines + [line]) ==
            if lines != [] && Last(lines) == line then Collapsed(lines) else Collapsed(lines) + [line]
  {
    assert (lines + [line])[..|lines|] == lines;
  }

  lemma RememberNewest(kept: seq<Line>, line: Line)
    requires !Blank(line)
    ensures Remember(Newest(kept, HISTORY_CAPACITY), line) ==
            Newest(if kept != [] && Last(kept) == line then kept else kept + [line], HISTORY_CAPACITY)
  {
    NewestAppend(kept, line, HISTORY_CAPACITY);
  }

  /** After any submissions the history is the newest 16 of the non-blank lines with repeats collapsed. */
  lemma {:induction false} HistoryIsNewestDistinct(lines: seq<Line>)
    ensures AfterLines(lines) == Newest(Collapsed(NonBlank(lines)), 16)
  {
    if lines == [] {
    } else {
      hide Blank, Newest, Collapsed;
      var front, line := lines[..|lines| - 1], Last(lines);
      var before := NonBlank(front);
      HistoryIsNewestDistinct(front);
      if !Blank(line) {
        CollapsedStep(before, line);
        RememberNewest(Collapsed(before), line);
        if before != [] {
          CollapsedKeepsLast(before);
        } else {
          CollapsedOfNone();
        }
      } else {
        assert NonBlank(lines) == before;
      }
    }
  }

  lemma CollapsedOfNone()
    ensures Collapsed([]) == []
  {
  }

  /** No two neighbours in the history are equal, and none is blank. */
  lemma {:induction false} HistoryHasNoRepeats(lines: seq<Line>)
    ensures |AfterLines(lines)| <= HISTORY_CAPACITY
    ensures forall i :: 0 <= i < |AfterLines(lines)| ==> !Blank(AfterLines(lines)[i])
    ensures forall i :: 0 <= i < |AfterLines(lines)| - 1 ==> AfterLines(lines)[i] != AfterLines(lines)[i + 1]
  {
    hide Blank;
    if lines == [] {
    } else {
      HistoryHasNoRepeats(lines[..|lines| - 1]);
    }
  }

  // ---------- the ring ----------

  /** The slot of the entry at `position`, counting back from the newest. */
  function RingIndex(next: nat, position: nat): nat
    requires next < HISTORY_CAPACITY && position < HISTORY_CAPACITY
  {
    (next + HISTORY_CAPACITY - 1 - position) % HISTORY_CAPACITY
  }

  lemma RingIndexAdvances(next: nat, position: nat)
    requires next < HISTORY_CAPACITY && position < HISTORY_CAPACITY
    ensures RingIndex((next + 1) % HISTORY_CAPACITY, 0) == next
    ensures 0 < position ==> RingIndex((next + 1) % HISTORY_CAPACITY, position) == RingIndex(next, position - 1)
    ensures 0 < position ==> RingIndex((next + 1) % HISTORY_CAPACITY, position) != next
  {
  }

  lemma NewestSlot(next: nat)
    requires next < HISTORY_CAPACITY
    ensures (next + HISTORY_CAPACITY - 1) % HISTORY_CAPACITY == RingIndex(next, 0)
  {
  }

  function Older(current: Option<nat>, count: nat): Option<nat> {
    if count == 0 then None
    else match current
         case None => Some(0)
         case Some(p) => if p + 1 < count then Some(p + 1) else Some(p)
  }

  function Newer(current: Option<nat>): Option<Option<nat>> {
    match current
    case None => None
    case Some(p) => if p > 0 then Some(Some(p - 1)) else Some(None)
  }

  class CommandHistory {
    // Rows keep their full width; only the first `lengths[i]` bytes of row i mean anything.
    const entries: array<seq<byte>>
    const lengths: array<nat>
    var count: nat
    var next: nat

    ghost predicate Valid()
      reads this, entries, lengths
    {
      && entries.Length == HISTORY_CAPACITY && lengths.Length == HISTORY_CAPACITY
      && count <= HISTORY_CAPACITY && next < HISTORY_CAPACITY
      && (forall i :: 0 <= i < HISTORY_CAPACITY ==> |entries[i]| == LINE_CAPACITY && lengths[i] <= LINE_CAPACITY)
    }

    ghost function Entry(position: nat): Line
      reads this, entries, lengths
      requires Valid() && position < HISTORY_CAPACITY
    {
      var i := RingIndex(next, position);
      entries[i][..lengths[i]]
    }

    /** The entries as `copy_into` reads them from position 0 upward. */
    ghost function Recent(): (r: seq<Line>)
      reads this, entries, lengths
      requires Valid()
      ensures |r| == count
    {
      seq(count, p requires 0 <= p < count reads this, entries, lengths requires Valid() => Entry(p))
    }

    constructor ()
      ensures Valid() && Recent() == [] && fresh(entries) && fresh(lengths)
    {
      entries := new seq<byte>[HISTORY_CAPACITY](_ => seq(LINE_CAPACITY, _ => 0));
      lengths := new nat[HISTORY_CAPACITY](_ => 0);
      count, next := 0, 0;
    }

    /** The write at the end of `push`. */
    method Store(line: Line)
      requires Valid()
      modifies this, entries, lengths
      ensures Valid()
      ensures Recent() == ([line] + old(Recent()))[..Min(HISTORY_CAPACITY, |old(Recent())| + 1)]
    {
      ghost var before := Recent();
      ghost var n0 := next;
      entries[next] := line + entries[next][|line|..];
      lengths[next] := |line|;
      next := (next + 1) % HISTORY_CAPACITY;
      count := if count + 1 < HISTORY_CAPACITY then count + 1 else HISTORY_CAPACITY;
      forall p | 0 <= p < count
        ensures Entry(p) == ([line] + before)[p]
      {
        RingIndexAdvances(n0, p);
        hide RingIndex;
        if p > 0 {
          assert before[p - 1] == old(Entry(p - 1));
        }
      }
      assert Recent() == ([line] + before)[..count];
    }

    /** `push`. */
    method Push(line: Line)
      requires Valid()
      modifies this, entries, lengths
      ensures Valid()
      ensures Recent() == Remember(old(Recent()), line)
    {
      hide RingIndex;
      if forall i :: 0 <= i < |line| ==> IsWhitespace(line[i]) {
        return;
      }
      if count > 0 {
        var newest := (next + HISTORY_CAPACITY - 1) % HISTORY_CAPACITY;
        assert newest == RingIndex(next, 0) by {
          NewestSlot(next);
        }
        assert Recent()[0] == Entry(0);
        if lengths[newest] == |line| && entries[newest][..|line|] == line {
          return;
        }
      }
      Store(line);
    }

    /** `copy_into`: overwrite the front of `output` with an entry. */
    method CopyInto(position: nat, output: array<byte>) returns (length: nat)
      requires Valid() && position < count && output.Length == LINE_CAPACITY
      modifies output
      ensures length <= LINE_CAPACITY && output[..length] == Recent()[position]
    {
      var index := (next + HISTORY_CAPACITY - 1 - position) % HISTORY_CAPACITY;
      length := lengths[index];
      assert Recent()[position] == Entry(position);
      var row := entries[index];
      forall i | 0 <= i < length {
        output[i] := row[i];
      }
      assert output[..length] == row[..length];
    }

    /** `previous`: one entry older, saving the line as a draft when browsing starts. */
    method Previous(current: Option<nat>, line: array<byte>, lineLength: nat, draft: array<byte>, draftLength: nat)
      returns (position: Option<nat>, newDraftLength: nat)
      requires Valid()
      requires line != draft && line.Length == LINE_CAPACITY && draft.Length == LINE_CAPACITY
      requires lineLength <= LINE_CAPACITY
      modifies draft
      ensures Recent() == old(Recent())
      ensures position == Older(current, count)
      ensures current.None? && position.Some? ==>
                newDraftLength == lineLength && draft[..newDraftLength] == old(line[..lineLength])
      ensures current.Some? || position.None? ==> newDraftLength == draftLength && draft[..] == old(draft[..])
    {
      newDraftLength := draftLength;
      if count == 0 {
        return None, newDraftLength;
      }
      match current
      case Some(p) =>
        position := if p + 1 < count then Some(p + 1) else Some(p);
      case None =>
        forall i | 0 <= i < lineLength {
          draft[i] := line[i];
        }
        newDraftLength := lineLength;
        assert draft[..lineLength] == line[..lineLength];
        position := Some(0);
    }

    /** `next`: one entry newer, or out of the history. */
    function Next(current: Option<nat>): Option<Option<nat>> {
      Newer(current)
    }
  }
}
