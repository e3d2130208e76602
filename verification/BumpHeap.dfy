/** The bump allocator: concurrent `alloc` calls and the three stores of `init`, in any interleaving. */
module BumpHeap {
  import opened Machine

  const WORD := 64

  /** A request: `size` bytes aligned to 2^exponent. */
  datatype Layout = Layout(size: usize, exponent: nat) {
    ghost predicate Valid() {
      exponent < WORD
    }

    function Align(): nat {
      Pow2(exponent)
    }
  }

  // ---------- alignment ----------

  ghost predicate IsMultiple(a: nat, m: nat) {
    exists q :: a == Times(q, m)
  }

  lemma {:induction false} WordLimit()
    ensures Pow2(WORD) == USIZE_LIMIT
  {
    assert Pow2(7) == 0x80;
    assert Pow2(14) == 0x4000;
    assert Pow2(21) == 0x20_0000;
    assert Pow2(28) == 0x1000_0000;
    assert Pow2(35) == 0x8_0000_0000;
    assert Pow2(42) == 0x400_0000_0000;
    assert Pow2(49) == 0x2_0000_0000_0000;
    assert Pow2(56) == 0x100_0000_0000_0000;
    assert Pow2(63) == 0x8000_0000_0000_0000;
  }

  /** `(current + mask) & !mask`, if the sum does not overflow. */
  function AlignUp(current: usize, exponent: nat): (r: Option<nat>)
    requires exponent < WORD
  {
    Pow2Monotone(exponent, WORD);
    WordLimit();
    var mask := Pow2(exponent) - 1;
    if current + mask >= USIZE_LIMIT then None
    else Some(BitAnd(current + mask, USIZE_LIMIT - Pow2(exponent)))
  }

  lemma AlignUpIsMultiple(current: usize, exponent: nat) returns (q: nat)
    requires exponent < WORD && AlignUp(current, exponent).Some?
    ensures var a := AlignUp(current, exponent).value;
            a == Times(q, Pow2(exponent)) && current <= a < current + Pow2(exponent) && a < USIZE_LIMIT
  {
    var x: nat := current + Pow2(exponent) - 1;
    WordLimit();
    AndHighMask(x, exponent, WORD);
    hide BitAnd, Times, LowBits;
    q := LowBitsIsRemainder(x, exponent);
  }

  /** The result is the least multiple of the alignment that is not below `current`. */
  lemma AlignUpIsLeast(current: usize, exponent: nat)
    requires exponent < WORD && AlignUp(current, exponent).Some?
    ensures var a := AlignUp(current, exponent).value;
            && current <= a < current + Pow2(exponent) && a < USIZE_LIMIT
            && IsMultiple(a, Pow2(exponent))
            && forall b :: IsMultiple(b, Pow2(exponent)) && current <= b ==> a <= b
  {
    var m, a := Pow2(exponent), AlignUp(current, exponent).value;
    var q := AlignUpIsMultiple(current, exponent);
    hide AlignUp, Times, Pow2;
    forall b | IsMultiple(b, m) && current <= b
      ensures a <= b
    {
      var p :| b == Times(p, m);
      if p < q {
        TimesStep(p, q, m);
      } else {
        TimesMonotone(q, p, m);
      }
    }
  }

  lemma {:induction false} Pow2Splits(j: nat, d: nat)
    ensures Pow2(j + d) == Times(Pow2(d), Pow2(j))
  {
    if d > 0 {
      Pow2Splits(j, d - 1);
      TimesAdd(Pow2(d - 1), Pow2(d - 1), Pow2(j));
    } else {
      assert Times(1, Pow2(j)) == Times(0, Pow2(j)) + Pow2(j);
    }
  }

  lemma {:induction false} TimesAssociates(a: nat, b: nat, m: nat)
    ensures Times(a, Times(b, m)) == Times(Times(a, b), m)
  {
    if a == 0 {
    } else {
      TimesAssociates(a - 1, b, m);
      TimesAdd(Times(a - 1, b), b, m);
    }
  }

  lemma StricterMultiple(a: nat, j: nat, k: nat)
    requires j <= k && IsMultiple(a, Pow2(k))
    ensures IsMultiple(a, Pow2(j))
  {
    var q :| a == Times(q, Pow2(k));
    Pow2Splits(j, k - j);
    TimesAssociates(q, Pow2(k - j), Pow2(j));
  }

  /** A later start and a stricter alignment never give an earlier address. */
  lemma AlignUpMonotone(c: usize, j: nat, c': usize, k: nat)
    requires c <= c' && j <= k < WORD && AlignUp(c', k).Some?
    ensures AlignUp(c, j).Some? && AlignUp(c, j).value <= AlignUp(c', k).value
  {
    Pow2Monotone(j, k);
    AlignUpIsLeast(c', k);
    StricterMultiple(AlignUp(c', k).value, j, k);
    assert AlignUp(c, j).Some?;
    AlignUpIsLeast(c, j);
  }

  // ---------- one attempt ----------

  datatype Block = Block(address: nat, end: nat)

  /** What `alloc` computes from `next` and `end` before its compare-exchange; None means null. */
  function Fit(current: usize, end: usize, layout: Layout): Option<Block>
    requires layout.exponent < WORD
  {
    match AlignUp(current, layout.exponent)
    case None => None
    case Some(aligned) =>
      if aligned + layout.size >= USIZE_LIMIT || current == 0 || aligned + layout.size > end then None
      else Some(Block(aligned, aligned + layout.size))
  }

  ghost predicate AtLeast(big: Layout, small: Layout) {
    big.size >= small.size && big.exponent >= small.exponent
  }

  /** If a request does not fit, no later and no larger request does. */
  lemma FitMonotone(c: usize, small: Layout, c': usize, big: Layout, end: usize)
    requires small.Valid() && big.Valid() && 0 < c <= c' && AtLeast(big, small)
    requires Fit(c', end, big).Some?
    ensures Fit(c, end, small).Some?
  {
    AlignUpMonotone(c, small.exponent, c', big.exponent);
  }

  lemma FitInside(current: usize, end: usize, layout: Layout)
    requires layout.Valid() && Fit(current, end, layout).Some?
    ensures var b := Fit(current, end, layout).value;
            current <= b.address && b.end == b.address + layout.size && b.end <= end && 0 < current
            && IsMultiple(b.address, layout.Align())
  {
    AlignUpIsLeast(current, layout.exponent);
  }

  ghost predicate AlignedFrom(b: nat, current: nat, m: nat) {
    IsMultiple(b, m) && current <= b
  }

  lemma MultipleBelowLimit(b: nat, exponent: nat)
    requires exponent < WORD && IsMultiple(b, Pow2(exponent)) && b < USIZE_LIMIT
    ensures b + Pow2(exponent) <= USIZE_LIMIT
  {
    WordLimit();
    var count := Pow2(WORD - exponent);
    Pow2Splits(exponent, WORD - exponent);
    hide Pow2, Times;
    var q :| b == Times(q, Pow2(exponent));
    if q < count {
      TimesStep(q, count, Pow2(exponent));
    } else {
      TimesMonotone(count, q, Pow2(exponent));
    }
  }

  /** An attempt fails exactly when no aligned block fits, and otherwise takes the lowest one. */
  lemma FitIsExact(current: usize, end: usize, layout: Layout)
    requires layout.Valid()
    ensures Fit(current, end, layout).None? <==>
            current == 0 || forall b: nat :: AlignedFrom(b, current, layout.Align()) ==> b + layout.size > end
    ensures Fit(current, end, layout).Some? ==>
              var block := Fit(current, end, layout).value;
              && AlignedFrom(block.address, current, layout.Align())
              && (forall b: nat :: AlignedFrom(b, current, layout.Align()) ==> block.address <= b)
              && block.end == block.address + layout.size <= end
  {
    var m := layout.Align();
    match AlignUp(current, layout.exponent)
    case Some(a) =>
      AlignUpIsLeast(current, layout.exponent);
      hide AlignUp, Pow2, IsMultiple;
      assert AlignedFrom(a, current, m);
      assert forall b: nat :: AlignedFrom(b, current, m) ==> a <= b;
    case None =>
      forall b: nat | AlignedFrom(b, current, m)
        ensures b + layout.size > end
      {
        if b < USIZE_LIMIT {
          MultipleBelowLimit(b, layout.exponent);
        }
      }
  }

  // ---------- the state machine ----------

  // A thread inside `alloc`.
  datatype Thread =
    | Idle
    | LoadedEnd(layout: Layout, end: usize)
    | Ready(layout: Layout, end: usize, current: usize, block: Block)

  datatype Outcome =
    | Got(layout: Layout, block: Block)
    | Null(layout: Layout, end: usize, current: usize)

  datatype Heap = Heap(
    start: usize, end: usize, next: usize,
    initialised: nat,              // how many of the three stores of `init` have happened
    threads: seq<Thread>,
    log: seq<Outcome>)             // finished calls, in the order they took effect

  // The arguments of `init`, checked before its first store.
  datatype Range = Range(start: usize, size: usize) {
    ghost predicate Valid() {
      start + size < USIZE_LIMIT
    }

    function End(): nat {
      start + size
    }
  }

  datatype Step =
    | InitStore
    | Begin(thread: nat, layout: Layout)
    | LoadNext(thread: nat)
    | Exchange(thread: nat)
    | ExchangeFails(thread: nat)

  ghost predicate Init(h: Heap) {
    h.start == 0 && h.end == 0 && h.next == 0 && h.initialised == 0 && h.log == []
    && forall i :: 0 <= i < |h.threads| ==> h.threads[i] == Idle
  }

  ghost predicate Next(h: Heap, k: Heap, step: Step, range: Range)
    requires range.Valid()
  {
    match step
    case InitStore =>
      (h.initialised == 0 && k == h.(start := range.start, initialised := 1))
      || (h.initialised == 1 && k == h.(end := range.End(), initialised := 2))
      || (h.initialised == 2 && k == h.(next := range.start, initialised := 3))
    case Begin(i, layout) =>
      i < |h.threads| && h.threads[i].Idle? && layout.Valid()
      && k == h.(threads := h.threads[i := LoadedEnd(layout, h.end)])
    case LoadNext(i) =>
      i < |h.threads| && h.threads[i].LoadedEnd? && h.threads[i].layout.Valid()
      && var t := h.threads[i];
         (match Fit(h.next, t.end, t.layout)
          case None => k == h.(threads := h.threads[i := Idle], log := h.log + [Null(t.layout, t.end, h.next)])
          case Some(b) => k == h.(threads := h.threads[i := Ready(t.layout, t.end, h.next, b)]))
    case Exchange(i) =>
      i < |h.threads| && h.threads[i].Ready? && h.threads[i].current == h.next && h.threads[i].block.end < USIZE_LIMIT
      && var t := h.threads[i];
         k == h.(next := t.block.end, threads := h.threads[i := Idle], log := h.log + [Got(t.layout, t.block)])
    case ExchangeFails(i) => // lost the race, or failed spuriously
      i < |h.threads| && h.threads[i].Ready?
      && k == h.(threads := h.threads[i := LoadedEnd(h.threads[i].layout, h.threads[i].end)])
  }

  // ---------- invariants ----------

  ghost predicate CellsOk(h: Heap, range: Range) {
    match h.initialised
    case 0 => h.start == 0 && h.end == 0 && h.next == 0
    case 1 => h.start == range.start && h.end == 0 && h.next == 0
    case 2 => h.start == range.start && h.end == range.End() && h.next == 0
    case _ => h.initialised == 3 && h.start == range.start && h.end == range.End()
              && range.start <= h.next <= range.End()
  }

  ghost predicate ThreadOk(h: Heap, t: Thread, range: Range) {
    match t
    case Idle => true
    case LoadedEnd(layout, end) => layout.Valid() && (end == 0 || end == range.End())
    case Ready(layout, end, current, block) =>
      && layout.Valid() && end == range.End()
      && h.initialised == 3 && range.start <= current <= h.next
      && Fit(current, end, layout) == Some(block)
  }

  /** A null after initialisation: the request did not fit what was left. */
  ghost predicate Exhausted(o: Outcome, range: Range) {
    o.Null? && o.layout.Valid() && o.end == range.End() && 0 < o.current
  }

  ghost predicate OutcomeOk(h: Heap, o: Outcome, range: Range) {
    match o
    case Got(layout, block) =>
      && layout.Valid() && h.initialised == 3
      && range.start <= block.address && block.end == block.address + layout.size <= h.next
      && IsMultiple(block.address, layout.Align())
    case Null(layout, end, current) =>
      && layout.Valid()
      && (Exhausted(o, range) ==> h.initialised == 3 && current <= h.next && Fit(current, end, layout).None?)
  }

  ghost predicate Ordered(log: seq<Outcome>, range: Range) {
    forall i, j :: 0 <= i < j < |log| && log[j].Got? ==>
      && (log[i].Got? ==> log[i].block.end <= log[j].block.address)
      && (Exhausted(log[i], range) ==> !AtLeast(log[j].layout, log[i].layout))
  }

  ghost predicate Inv(h: Heap, range: Range) {
    && CellsOk(h, range)
    && (forall i :: 0 <= i < |h.threads| ==> ThreadOk(h, h.threads[i], range))
    && (forall i :: 0 <= i < |h.log| ==> OutcomeOk(h, h.log[i], range))
    && Ordered(h.log, range)
  }

  lemma ExchangeInv(h: Heap, k: Heap, i: nat, range: Range)
    requires range.Valid() && Inv(h, range) && Next(h, k, Exchange(i), range)
    ensures Inv(k, range) && h.next <= k.next
  {
    var t := h.threads[i];
    assert ThreadOk(h, t, range);
    FitInside(t.current, t.end, t.layout);
    forall j | 0 <= j < |h.log| && Exhausted(h.log[j], range) && AtLeast(t.layout, h.log[j].layout)
      ensures false
    {
      assert OutcomeOk(h, h.log[j], range);
      FitMonotone(h.log[j].current, h.log[j].layout, t.current, t.layout, t.end);
    }
    hide Fit, IsMultiple;
    forall j | 0 <= j < |k.threads|
      ensures ThreadOk(k, k.threads[j], range)
    {
      assert ThreadOk(h, h.threads[j], range);
    }
    forall j | 0 <= j < |k.log|
      ensures OutcomeOk(k, k.log[j], range)
    {
      if j < |h.log| {
        assert OutcomeOk(h, h.log[j], range);
      }
    }
  }

  lemma LoadNextInv(h: Heap, k: Heap, i: nat, range: Range)
    requires range.Valid() && Inv(h, range) && Next(h, k, LoadNext(i), range)
    ensures Inv(k, range) && h.next == k.next
  {
    var t := h.threads[i];
    assert ThreadOk(h, t, range);
    if Fit(h.next, t.end, t.layout).Some? {
      FitInside(h.next, t.end, t.layout);
    }
    hide Fit;
    forall j | 0 <= j < |k.threads|
      ensures ThreadOk(k, k.threads[j], range)
    {
      assert ThreadOk(h, h.threads[j], range);
    }
    forall j | 0 <= j < |k.log|
      ensures OutcomeOk(k, k.log[j], range)
    {
      if j < |h.log| {
        assert OutcomeOk(h, h.log[j], range);
      }
    }
  }

  /** Every step keeps the invariant, and once initialised `next` never decreases. */
  lemma NextInv(h: Heap, k: Heap, step: Step, range: Range)
    requires range.Valid() && Inv(h, range) && Next(h, k, step, range)
    ensures Inv(k, range) && h.next <= k.next
  {
    match step
    case LoadNext(i) => LoadNextInv(h, k, i, range);
    case Exchange(i) => ExchangeInv(h, k, i, range);
    case _ =>
      hide Fit, AtLeast, IsMultiple;
      forall j | 0 <= j < |k.threads|
        ensures ThreadOk(k, k.threads[j], range)
      {
        assert ThreadOk(h, h.threads[j], range);
      }
      forall j | 0 <= j < |k.log|
        ensures OutcomeOk(k, k.log[j], range)
      {
        assert OutcomeOk(h, h.log[j], range);
      }
  }

  // ---------- whole runs ----------

  ghost predicate IsRun(states: seq<Heap>, steps: seq<Step>, range: Range)
    requires range.Valid()
  {
    && |states| == |steps| + 1
    && Init(states[0])
    && forall i :: 0 <= i < |steps| ==> Next(states[i], states[i + 1], steps[i], range)
  }

  lemma {:induction false} RunInv(states: seq<Heap>, steps: seq<Step>, range: Range, n: nat)
    requires range.Valid() && IsRun(states, steps, range) && n < |states|
    ensures Inv(states[n], range)
    ensures 0 < n ==> states[n - 1].next <= states[n].next
    decreases n
  {
    if n == 0 {
    } else {
      RunInv(states, steps, range, n - 1);
      NextInv(states[n - 1], states[n], steps[n - 1], range);
    }
  }

  /** Returned blocks are aligned, inside the heap, pairwise disjoint and ascending. */
  lemma BlocksAreDisjoint(states: seq<Heap>, steps: seq<Step>, range: Range, n: nat)
    requires range.Valid() && IsRun(states, steps, range) && n < |states|
    ensures var log := states[n].log;
            && (forall i :: 0 <= i < |log| && log[i].Got? ==>
                  && range.start <= log[i].block.address
                  && log[i].block.end == log[i].block.address + log[i].layout.size <= range.End()
                  && IsMultiple(log[i].block.address, log[i].layout.Align()))
            && (forall i, j :: 0 <= i < j < |log| && log[i].Got? && log[j].Got? ==>
                  log[i].block.end <= log[j].block.address)
  {
    RunInv(states, steps, range, n);
    var h := states[n];
    forall i | 0 <= i < |h.log| && h.log[i].Got?
      ensures OutcomeOk(h, h.log[i], range)
    {
    }
  }

  /** Once a request got null from an initialised heap, every later one at least as demanding gets null. */
  lemma NullIsFinal(states: seq<Heap>, steps: seq<Step>, range: Range, n: nat, i: nat, j: nat)
    requires range.Valid() && IsRun(states, steps, range) && n < |states|
    requires i < j < |states[n].log|
    requires Exhausted(states[n].log[i], range) && AtLeast(states[n].log[j].layout, states[n].log[i].layout)
    ensures states[n].log[j].Null?
  {
    RunInv(states, steps, range, n);
  }

  function SaturatingSub(a: nat, b: nat): nat {
    if a < b then 0 else a - b
  }

  // `used()` and `capacity()` each make two loads, possibly in different states of a run.

  function Used(nextLoad: Heap, startLoad: Heap): nat {
    SaturatingSub(nextLoad.next, startLoad.start)
  }

  function Capacity(endLoad: Heap, startLoad: Heap): nat {
    SaturatingSub(endLoad.end, startLoad.start)
  }

  lemma {:induction false} StoresOnlyGrow(states: seq<Heap>, steps: seq<Step>, range: Range, i: nat, j: nat)
    requires range.Valid() && IsRun(states, steps, range) && i <= j < |states|
    ensures states[i].initialised <= states[j].initialised
    decreases j
  {
    if i == j {
    } else {
      StoresOnlyGrow(states, steps, range, i, j - 1);
      assert Next(states[j - 1], states[j], steps[j - 1], range);
    }
  }

  lemma LoadsOf(states: seq<Heap>, steps: seq<Step>, range: Range, i: nat)
    requires range.Valid() && IsRun(states, steps, range) && i < |states|
    ensures CellsOk(states[i], range)
  {
    RunInv(states, steps, range, i);
  }

  /** The end of the last block handed out, or the start of the heap. */
  ghost function LastEnd(log: seq<Outcome>, range: Range): nat {
    if log == [] then range.start
    else if Last(log).Got? then Last(log).block.end
    else LastEnd(log[..|log| - 1], range)
  }

  lemma {:induction false} NothingHandedOut(log: seq<Outcome>, range: Range)
    requires forall i :: 0 <= i < |log| ==> !log[i].Got?
    ensures LastEnd(log, range) == range.start
  {
    if log == [] {
    } else {
      NothingHandedOut(log[..|log| - 1], range);
    }
  }

  lemma OneMoreOutcome(log: seq<Outcome>, o: Outcome, range: Range)
    ensures LastEnd(log + [o], range) == if o.Got? then o.block.end else LastEnd(log, range)
  {
    assert (log + [o])[..|log|] == log;
  }

  lemma NextMovesToEnd(h: Heap, k: Heap, step: Step, range: Range)
    requires range.Valid() && Inv(h, range) && Next(h, k, step, range)
    requires h.initialised == 3 ==> h.next == LastEnd(h.log, range)
    ensures k.initialised == 3 ==> k.next == LastEnd(k.log, range)
  {
    hide Fit, LastEnd, Ordered, ThreadOk;
    match step
    case InitStore =>
      if h.initialised == 2 {
        forall i | 0 <= i < |h.log|
          ensures !h.log[i].Got?
        {
          assert OutcomeOk(h, h.log[i], range);
        }
        NothingHandedOut(h.log, range);
      }
    case LoadNext(i) =>
      var t := h.threads[i];
      OneMoreOutcome(h.log, Null(t.layout, t.end, h.next), range);
    case Exchange(i) =>
      var t := h.threads[i];
      OneMoreOutcome(h.log, Got(t.layout, t.block), range);
    case _ =>
  }

  /** Once initialised, `next` is where the last block ended. */
  lemma {:induction false} NextIsLastEnd(states: seq<Heap>, steps: seq<Step>, range: Range, n: nat)
    requires range.Valid() && IsRun(states, steps, range) && n < |states|
    ensures states[n].initialised == 3 ==> states[n].next == LastEnd(states[n].log, range)
    decreases n
  {
    if n == 0 {
    } else {
      NextIsLastEnd(states, steps, range, n - 1);
      RunInv(states, steps, range, n - 1);
      assert Next(states[n - 1], states[n], steps[n - 1], range);
      NextMovesToEnd(states[n - 1], states[n], steps[n - 1], range);
    }
  }

  /** What the two reports say: the bytes up to the end of the last block, and the size of the heap. */
  lemma ReportsExactly(states: seq<Heap>, steps: seq<Step>, range: Range, i: nat, j: nat)
    requires range.Valid() && IsRun(states, steps, range) && i <= j < |states|
    ensures Used(states[i], states[j]) ==
            if states[i].initialised == 3 then LastEnd(states[i].log, range) - range.start else 0
    ensures Capacity(states[i], states[j]) == if states[i].initialised >= 2 then range.size else 0
  {
    hide IsRun;
    StoresOnlyGrow(states, steps, range, i, j);
    LoadsOf(states, steps, range, i);
    LoadsOf(states, steps, range, j);
    NextIsLastEnd(states, steps, range, i);
    hide LastEnd;
  }

  /**
   * Whenever the loads happen: the reported use exceeds the reported capacity exactly when something was used and the
   * capacity was read before `init` stored the end of the heap.
   */
  lemma ReportsAgreeExactly(states: seq<Heap>, steps: seq<Step>, range: Range, i: nat, j: nat, k: nat, l: nat)
    requires range.Valid() && IsRun(states, steps, range) && i <= j < |states| && k <= l < |states|
    ensures Used(states[i], states[j]) <= Capacity(states[k], states[l]) <==>
            Used(states[i], states[j]) == 0 || states[k].initialised >= 2
  {
    hide IsRun;
    StoresOnlyGrow(states, steps, range, i, j);
    StoresOnlyGrow(states, steps, range, k, l);
    LoadsOf(states, steps, range, i);
    LoadsOf(states, steps, range, j);
    LoadsOf(states, steps, range, k);
    LoadsOf(states, steps, range, l);
  }

  /** So a report that reads the use first, as `meminfo` does, never shows more used than there is. */
  lemma UsedWithinCapacity(states: seq<Heap>, steps: seq<Step>, range: Range, i: nat, j: nat, k: nat, l: nat)
    requires range.Valid() && IsRun(states, steps, range) && i <= j < |states| && i <= k <= l < |states|
    ensures Used(states[i], states[j]) <= Capacity(states[k], states[l])
  {
    ReportsAgreeExactly(states, steps, range, i, j, k, l);
    StoresOnlyGrow(states, steps, range, i, k);
    LoadsOf(states, steps, range, i);
  }

  /** Reading the capacity first can: once before `init`, and the use after the first allocation. */
  lemma CapacityReadFirstFails() returns (states: seq<Heap>, steps: seq<Step>, range: Range)
    ensures range.Valid() && IsRun(states, steps, range)
    ensures Used(Last(states), Last(states)) > Capacity(states[0], states[0])
  {
    range := Range(4096, 4096);
    var layout := Layout(1, 0);
    var block := Block(4096, 4097);
    assert Pow2(0) == 1;
    AlignUpIsLeast(4096, 0);
    assert Fit(4096, 8192, layout) == Some(block);
    hide Fit;
    var h0 := Heap(0, 0, 0, 0, [Idle], []);
    var h1 := h0.(start := 4096, initialised := 1);
    var h2 := h1.(end := 8192, initialised := 2);
    var h3 := h2.(next := 4096, initialised := 3);
    var h4 := h3.(threads := [LoadedEnd(layout, 8192)]);
    var h5 := h4.(threads := [Ready(layout, 8192, 4096, block)]);
    var h6 := h5.(next := 4097, threads := [Idle], log := [Got(layout, block)]);
    states := [h0, h1, h2, h3, h4, h5, h6];
    steps := [InitStore, InitStore, InitStore, Begin(0, layout), LoadNext(0), Exchange(0)];
    assert Next(h3, h4, Begin(0, layout), range);
    assert Next(h4, h5, LoadNext(0), range);
    assert Next(h5, h6, Exchange(0), range);
  }

  // ---------- a single caller ----------

  /** The allocator without concurrent callers: `init` and the retry loop of `alloc` as they are written. */
  class BumpAllocator {
    var start: usize
    var end: usize
    var next: usize

    ghost predicate Valid()
      reads this
    {
      next == 0 || start <= next <= end
    }

    constructor ()
      ensures Valid() && start == 0 && end == 0 && next == 0
    {
      start, end, next := 0, 0, 0;
    }

    method Initialise(heapStart: usize, heapSize: usize)
      requires heapStart + heapSize < USIZE_LIMIT && start == 0
      modifies this
      ensures Valid() && start == heapStart && end == heapStart + heapSize && next == heapStart
    {
      start := heapStart;
      end := heapStart + heapSize;
      next := heapStart;
    }

    /**
     * `alloc`: null exactly when no aligned block fits, else the lowest one. The weak compare-exchange fails
     * spuriously `failures` times before it succeeds.
     */
    method Alloc(layout: Layout, failures: nat) returns (block: Option<Block>)
      requires Valid() && layout.Valid()
      modifies this`next
      ensures Valid()
      ensures block.None? <==>
              old(next) == 0 || forall b: nat :: AlignedFrom(b, old(next), layout.Align()) ==> b + layout.size > end
      ensures block.None? ==> next == old(next)
      ensures block.Some? ==>
                && AlignedFrom(block.value.address, old(next), layout.Align())
                && (forall b: nat :: AlignedFrom(b, old(next), layout.Align()) ==> block.value.address <= b)
                && next == block.value.end == block.value.address + layout.size <= end
    {
      FitIsExact(next, end, layout);
      Pow2Monotone(layout.exponent, WORD);
      WordLimit();
      hide BitAnd, Pow2, AlignedFrom;
      var limit := end;
      var mask := layout.Align() - 1;
      var left := failures;
      while true
        invariant next == old(next)
        decreases left
      {
        var current := next;
        if current + mask >= USIZE_LIMIT {
          return None;
        }
        var aligned := BitAnd(current + mask, USIZE_LIMIT - 1 - mask);
        if aligned + layout.size >= USIZE_LIMIT {
          return None;
        }
        var allocationEnd := aligned + layout.size;
        if current == 0 || allocationEnd > limit {
          return None;
        }
        if left == 0 {
          next := allocationEnd;
          return Some(Block(aligned, allocationEnd));
        }
        left := left - 1;
      }
    }
  }
}
