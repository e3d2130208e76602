/**
 * The single-producer single-consumer key queue, as atomic steps in any interleaving.
 *
 * Each atomic index keeps the history of its stores. A thread reads its own index exactly; an acquire
 * load of the other thread's index may return any store that is not older than the last one this thread saw.
 */
module KeyQueue {
  import opened Machine
  import opened KeyEvents

  const CAPACITY := 256

  type Index = i: nat | i < CAPACITY

  // The program counter and registers of `push`.
  datatype Producer =
    | PIdle
    | PLoadTail(event: KeyEvent, head: Index)
    | PFull
    | PWrite(event: KeyEvent, head: Index)
    | PStore(event: KeyEvent, head: Index)

  // The program counter and registers of `pop`.
  datatype Consumer =
    | CIdle
    | CLoadHead(tail: Index)
    | CRead(tail: Index)
    | CStore(event: KeyEvent, tail: Index)

  datatype State = State(
    slots: seq<KeyEvent>,
    headStores: seq<Index>,      // every value `head` has held, oldest first
    tailStores: seq<Index>,
    dropped: usize,
    producer: Producer,
    consumer: Consumer,
    tailSeen: nat,               // the newest store to `tail` the producer has seen
    headSeen: nat,               // the newest store to `head` the consumer has seen
    // what the outside world observes
    pushes: nat,                 // calls of `push` that have begun
    drops: nat,                  // calls of `push` that dropped their event
    accepted: seq<KeyEvent>,     // events whose `push` has published them
    returned: seq<KeyEvent>)     // events `pop` has returned
  {
    function Queued(): nat
      requires |returned| <= |accepted|
    {
      |accepted| - |returned|
    }
  }

  function Succ(i: nat): Index {
    (i + 1) % CAPACITY
  }

  function Init(): State {
    State(seq(CAPACITY, _ => Enter), [0], [0], 0, PIdle, CIdle, 0, 0, 0, 0, [], [])
  }

  // What a step shows to the outside.
  datatype Label = Silent | Accept(event: KeyEvent) | Drop | Return(event: KeyEvent) | ReturnNone

  // ---------- the steps of push ----------

  ghost predicate BeginPush(s: State, t: State, event: KeyEvent) {
    s.producer.PIdle? && s.headStores != [] &&
    t == s.(producer := PLoadTail(event, Last(s.headStores)), pushes := s.pushes + 1)
  }

  ghost predicate LoadTail(s: State, t: State, seen: nat) {
    s.producer.PLoadTail? && s.tailSeen <= seen < |s.tailStores| &&
    t == s.(tailSeen := seen,
            producer := if Succ(s.producer.head) == s.tailStores[seen] then PFull
                        else PWrite(s.producer.event, s.producer.head))
  }

  ghost predicate CountDrop(s: State, t: State) {
    s.producer.PFull? &&
    t == s.(producer := PIdle, dropped := (s.dropped + 1) % USIZE_LIMIT, drops := s.drops + 1)
  }

  ghost predicate WriteSlot(s: State, t: State) {
    s.producer.PWrite? && |s.slots| == CAPACITY &&
    t == s.(slots := s.slots[s.producer.head := s.producer.event],
            producer := PStore(s.producer.event, s.producer.head))
  }

  ghost predicate StoreHead(s: State, t: State) {
    s.producer.PStore? &&
    t == s.(headStores := s.headStores + [Succ(s.producer.head)], producer := PIdle,
            accepted := s.accepted + [s.producer.event])
  }

  // ---------- the steps of pop ----------

  ghost predicate BeginPop(s: State, t: State) {
    s.consumer.CIdle? && s.tailStores != [] &&
    t == s.(consumer := CLoadHead(Last(s.tailStores)))
  }

  ghost predicate LoadHead(s: State, t: State, seen: nat) {
    s.consumer.CLoadHead? && s.headSeen <= seen < |s.headStores| &&
    t == s.(headSeen := seen,
            consumer := if s.consumer.tail == s.headStores[seen] then CIdle else CRead(s.consumer.tail))
  }

  ghost predicate ReadSlot(s: State, t: State) {
    s.consumer.CRead? && |s.slots| == CAPACITY &&
    t == s.(consumer := CStore(s.slots[s.consumer.tail], s.consumer.tail))
  }

  ghost predicate StoreTail(s: State, t: State) {
    s.consumer.CStore? &&
    t == s.(tailStores := s.tailStores + [Succ(s.consumer.tail)], consumer := CIdle,
            returned := s.returned + [s.consumer.event])
  }

  datatype Step =
    | BeginPushStep(event: KeyEvent) | LoadTailStep(seen: nat) | CountDropStep | WriteSlotStep | StoreHeadStep
    | BeginPopStep | LoadHeadStep(seen: nat) | ReadSlotStep | StoreTailStep

  ghost predicate Next(s: State, t: State, step: Step) {
    match step
    case BeginPushStep(e) => BeginPush(s, t, e)
    case LoadTailStep(seen) => LoadTail(s, t, seen)
    case CountDropStep => CountDrop(s, t)
    case WriteSlotStep => WriteSlot(s, t)
    case StoreHeadStep => StoreHead(s, t)
    case BeginPopStep => BeginPop(s, t)
    case LoadHeadStep(seen) => LoadHead(s, t, seen)
    case ReadSlotStep => ReadSlot(s, t)
    case StoreTailStep => StoreTail(s, t)
  }

  ghost function LabelOf(s: State, t: State, step: Step): Label {
    if step.StoreHeadStep? && s.producer.PStore? then Accept(s.producer.event)
    else if step.LoadTailStep? && t.producer.PFull? then Drop
    else if step.StoreTailStep? && s.consumer.CStore? then Return(s.consumer.event)
    else if step.LoadHeadStep? && t.consumer.CIdle? then ReturnNone
    else Silent
  }

  // ---------- the invariant ----------

  /** The k-th store to either index holds k modulo the capacity. */
  ghost predicate Counting(stores: seq<Index>) {
    forall k :: 0 <= k < |stores| ==> stores[k] == k % CAPACITY
  }

  ghost predicate Indices(s: State) {
    && |s.slots| == CAPACITY
    && |s.headStores| == |s.accepted| + 1 && Counting(s.headStores)
    && |s.tailStores| == |s.returned| + 1 && Counting(s.tailStores)
    // neither side has seen more than was stored, and the consumer never overtakes what it has seen
    && s.tailSeen <= |s.returned| <= s.headSeen <= |s.accepted|
    // even by the producer's possibly stale view the queue holds at most CAPACITY - 1 events
    && |s.accepted| - s.tailSeen <= CAPACITY - 1
  }

  /** Every published event from `from` on, which is not returned yet, sits in its slot. */
  ghost predicate Stored(slots: seq<KeyEvent>, accepted: seq<KeyEvent>, from: nat)
    requires |slots| == CAPACITY
  {
    forall k :: from <= k < |accepted| ==> slots[k % CAPACITY] == accepted[k]
  }

  ghost predicate ProducerOk(s: State)
    requires |s.slots| == CAPACITY
  {
    match s.producer
    case PIdle => true
    case PLoadTail(_, head) => head == |s.accepted| % CAPACITY
    case PFull => |s.accepted| - s.tailSeen == CAPACITY - 1
    case PWrite(_, head) => head == |s.accepted| % CAPACITY && |s.accepted| - s.tailSeen < CAPACITY - 1
    case PStore(event, head) =>
      head == |s.accepted| % CAPACITY && |s.accepted| - s.tailSeen < CAPACITY - 1 && s.slots[head] == event
  }

  ghost predicate ConsumerOk(s: State) {
    match s.consumer
    case CIdle => true
    case CLoadHead(tail) => tail == |s.returned| % CAPACITY
    case CRead(tail) => tail == |s.returned| % CAPACITY && |s.returned| < s.headSeen
    case CStore(event, tail) =>
      tail == |s.returned| % CAPACITY && |s.returned| < s.headSeen <= |s.accepted| && event == s.accepted[|s.returned|]
  }

  ghost predicate Counted(s: State) {
    && s.pushes == |s.accepted| + s.drops + (if s.producer.PIdle? then 0 else 1)
    && s.dropped == s.drops % USIZE_LIMIT
  }

  ghost predicate Fifo(s: State) {
    |s.returned| <= |s.accepted| && s.returned == s.accepted[..|s.returned|]
  }

  ghost predicate Inv(s: State) {
    Indices(s) && Stored(s.slots, s.accepted, |s.returned|) && ProducerOk(s) && ConsumerOk(s) && Counted(s) && Fifo(s)
  }

  lemma InitInv()
    ensures Inv(Init())
  {
  }

  /** Indices less than a capacity apart name different slots. */
  lemma DistinctSlots(a: nat, b: nat)
    requires a < b < a + CAPACITY
    ensures a % CAPACITY != b % CAPACITY
  {
  }

  /** At most a capacity apart, they name the same slot only when they are equal or a whole turn apart. */
  lemma SameSlot(a: nat, b: nat)
    requires a <= b <= a + CAPACITY
    ensures a % CAPACITY == b % CAPACITY <==> b == a || b == a + CAPACITY
  {
  }

  lemma SuccCounts(n: nat)
    ensures Succ(n % CAPACITY) == (n + 1) % CAPACITY
  {
  }

  lemma LoadTailInv(s: State, t: State, seen: nat)
    requires Inv(s) && LoadTail(s, t, seen)
    ensures Inv(t)
  {
    SuccCounts(|s.accepted|);
    assert s.tailStores[seen] == seen % CAPACITY;
    hide Stored, Counting;
    SameSlot(seen, |s.accepted| + 1);
    hide Succ;
  }

  lemma WriteSlotInv(s: State, t: State)
    requires Inv(s) && WriteSlot(s, t)
    ensures Inv(t)
  {
    forall k | |s.returned| <= k < |s.accepted|
      ensures t.slots[k % CAPACITY] == t.accepted[k]
    {
      DistinctSlots(k, |s.accepted|);
    }
  }

  lemma CountingAppend(stores: seq<Index>, index: Index)
    requires Counting(stores) && index == |stores| % CAPACITY
    ensures Counting(stores + [index])
  {
  }

  lemma StoredAppend(slots: seq<KeyEvent>, accepted: seq<KeyEvent>, from: nat, event: KeyEvent)
    requires |slots| == CAPACITY && Stored(slots, accepted, from) && slots[|accepted| % CAPACITY] == event
    ensures Stored(slots, accepted + [event], from)
  {
  }

  lemma StoreHeadInv(s: State, t: State)
    requires Inv(s) && StoreHead(s, t)
    ensures Inv(t)
  {
    hide Stored, Counting;
    SuccCounts(|s.accepted|);
    CountingAppend(s.headStores, (|s.accepted| + 1) % CAPACITY);
    StoredAppend(s.slots, s.accepted, |s.returned|, s.producer.event);
    hide Succ;
    assert t.accepted[..|s.returned|] == s.accepted[..|s.returned|];
  }

  lemma LoadHeadInv(s: State, t: State, seen: nat)
    requires Inv(s) && LoadHead(s, t, seen)
    ensures Inv(t)
    ensures t.consumer.CIdle? <==> seen == |s.returned|
  {
    if |s.returned| < seen {
      DistinctSlots(|s.returned|, seen);
    }
  }

  lemma StoreTailInv(s: State, t: State)
    requires Inv(s) && StoreTail(s, t)
    ensures Inv(t)
  {
    SuccCounts(|s.returned|);
    assert s.accepted[..|s.returned| + 1] == s.accepted[..|s.returned|] + [s.accepted[|s.returned|]];
  }

  lemma BeginPushInv(s: State, t: State, event: KeyEvent)
    requires Inv(s) && BeginPush(s, t, event)
    ensures Inv(t)
  {
    assert Last(s.headStores) == s.headStores[|s.accepted|] == |s.accepted| % CAPACITY;
    hide Stored, Counting;
  }

  lemma CountWraps(n: nat)
    ensures (n % USIZE_LIMIT + 1) % USIZE_LIMIT == (n + 1) % USIZE_LIMIT
  {
  }

  lemma CountDropInv(s: State, t: State)
    requires Inv(s) && CountDrop(s, t)
    ensures Inv(t)
  {
    hide Stored, Counting;
    CountWraps(s.drops);
  }

  lemma BeginPopInv(s: State, t: State)
    requires Inv(s) && BeginPop(s, t)
    ensures Inv(t)
  {
    assert Last(s.tailStores) == s.tailStores[|s.returned|] == |s.returned| % CAPACITY;
    hide Stored, Counting;
  }

  lemma ReadSlotInv(s: State, t: State)
    requires Inv(s) && ReadSlot(s, t)
    ensures Inv(t)
  {
    assert s.slots[|s.returned| % CAPACITY] == s.accepted[|s.returned|];
    hide Counting;
  }

  /** Every step of either side keeps the invariant. */
  lemma NextInv(s: State, t: State, step: Step)
    requires Inv(s) && Next(s, t, step)
    ensures Inv(t)
  {
    hide Inv;
    match step
    case BeginPushStep(e) => BeginPushInv(s, t, e);
    case LoadTailStep(seen) => LoadTailInv(s, t, seen);
    case CountDropStep => CountDropInv(s, t);
    case WriteSlotStep => WriteSlotInv(s, t);
    case StoreHeadStep => StoreHeadInv(s, t);
    case BeginPopStep => BeginPopInv(s, t);
    case LoadHeadStep(seen) => LoadHeadInv(s, t, seen);
    case ReadSlotStep => ReadSlotInv(s, t);
    case StoreTailStep => StoreTailInv(s, t);
  }

  // ---------- whole runs ----------

  /** A run: `steps[i]` leads from `states[i]` to `states[i + 1]`. */
  ghost predicate IsRun(states: seq<State>, steps: seq<Step>) {
    && |states| == |steps| + 1
    && states[0] == Init()
    && forall i :: 0 <= i < |steps| ==> Next(states[i], states[i + 1], steps[i])
  }

  lemma {:induction false} RunInv(states: seq<State>, steps: seq<Step>, i: nat)
    requires IsRun(states, steps) && i < |states|
    ensures Inv(states[i])
    decreases i
  {
    if i == 0 {
      InitInv();
    } else {
      RunInv(states, steps, i - 1);
      NextInv(states[i - 1], states[i], steps[i - 1]);
    }
  }

  /**
   * In every interleaving: returned events are a prefix of the accepted ones, at most 255 are queued, and
   * every push that has ended is returned, still queued or dropped.
   */
  lemma EveryRunIsFifo(states: seq<State>, steps: seq<Step>)
    requires IsRun(states, steps)
    ensures forall i {:trigger states[i]} :: 0 <= i < |states| ==>
              var s := states[i];
              && s.returned <= s.accepted
              && s.Queued() <= 255
              && s.pushes == |s.returned| + s.Queued() + s.drops + (if s.producer.PIdle? then 0 else 1)
              && s.dropped == s.drops % USIZE_LIMIT
  {
    forall i | 0 <= i < |states|
      ensures Inv(states[i])
    {
      RunInv(states, steps, i);
    }
  }

  // ---------- what was pushed ----------

  /** The events that `push` was called with, in order. */
  ghost function Pushed(steps: seq<Step>): seq<KeyEvent> {
    if steps == [] then []
    else Pushed(steps[..|steps| - 1]) + if Last(steps).BeginPushStep? then [Last(steps).event] else []
  }

  /** The same without the pushes that ended in no head store: those that dropped their event, or are under way. */
  ghost function Published(steps: seq<Step>): seq<KeyEvent> {
    if steps == [] then []
    else
      var front := steps[..|steps| - 1];
      Published(front) + if Last(steps).StoreHeadStep? && Pushed(front) != [] then [Last(Pushed(front))] else []
  }

  /** The producer handles the last pushed event, and has published those it did not drop. */
  ghost predicate Carries(s: State, pushed: seq<KeyEvent>, published: seq<KeyEvent>) {
    && s.accepted == published
    && (s.producer.PLoadTail? || s.producer.PWrite? || s.producer.PStore? ==>
          pushed != [] && s.producer.event == Last(pushed))
    && (s.drops == 0 ==>
          if s.producer.PIdle? then pushed == published else pushed != [] && pushed == published + [Last(pushed)])
  }

  lemma BeginCarries(s: State, t: State, event: KeyEvent, pushed: seq<KeyEvent>, published: seq<KeyEvent>)
    requires Carries(s, pushed, published) && BeginPush(s, t, event)
    ensures Carries(t, pushed + [event], published)
  {
  }

  lemma StoreCarries(s: State, t: State, pushed: seq<KeyEvent>, published: seq<KeyEvent>)
    requires Carries(s, pushed, published) && StoreHead(s, t)
    ensures pushed != [] && Carries(t, pushed, published + [Last(pushed)])
  {
  }

  lemma OthersCarry(s: State, t: State, step: Step, pushed: seq<KeyEvent>, published: seq<KeyEvent>)
    requires Carries(s, pushed, published) && Next(s, t, step) && !step.BeginPushStep? && !step.StoreHeadStep?
    ensures Carries(t, pushed, published)
  {
  }

  lemma OneMoreStep(steps: seq<Step>, step: Step)
    ensures Pushed(steps + [step]) == if step.BeginPushStep? then Pushed(steps) + [step.event] else Pushed(steps)
    ensures Published(steps + [step]) ==
            if step.StoreHeadStep? && Pushed(steps) != [] then Published(steps) + [Last(Pushed(steps))]
            else Published(steps)
  {
    assert (steps + [step])[..|steps|] == steps;
  }

  lemma StepCarries(s: State, t: State, steps: seq<Step>, step: Step)
    requires Carries(s, Pushed(steps), Published(steps)) && Next(s, t, step)
    ensures Carries(t, Pushed(steps + [step]), Published(steps + [step]))
  {
    hide Pushed, Published, Carries;
    OneMoreStep(steps, step);
    match step
    case BeginPushStep(event) => BeginCarries(s, t, event, Pushed(steps), Published(steps));
    case StoreHeadStep => StoreCarries(s, t, Pushed(steps), Published(steps));
    case _ => OthersCarry(s, t, step, Pushed(steps), Published(steps));
  }

  lemma {:induction false} RunCarries(states: seq<State>, steps: seq<Step>, n: nat)
    requires |states| == |steps| + 1 && IsRun(states, steps) && n <= |steps|
    ensures Carries(states[n], Pushed(steps[..n]), Published(steps[..n]))
    decreases n
  {
    hide Next;
    if n == 0 {
    } else {
      hide Carries, Pushed, Published;
      RunCarries(states, steps, n - 1);
      assert steps[..n] == steps[..n - 1] + [steps[n - 1]];
      StepCarries(states[n - 1], states[n], steps[..n - 1], steps[n - 1]);
    }
  }

  /**
   * In every interleaving the events that reach the consumer are those that `push` was called with, in that order,
   * less the dropped ones; as long as none was dropped, exactly the first ones.
   */
  lemma ReturnedArePushed(states: seq<State>, steps: seq<Step>, n: nat)
    requires |states| == |steps| + 1 && IsRun(states, steps) && n <= |steps|
    ensures states[n].returned <= states[n].accepted == Published(steps[..n])
    ensures states[n].drops == 0 ==>
              && states[n].accepted <= Pushed(steps[..n])
              && |Pushed(steps[..n])| <= |states[n].accepted| + 1
  {
    RunCarries(states, steps, n);
    RunInv(states, steps, n);
    hide IsRun, Pushed, Published;
  }

  // ---------- ownership of slots ----------

  /**
   * Whenever the producer is about to write a slot, that slot holds no unread event and the consumer is not
   * reading it; and the consumer's last read of it was already published by a tail store the producer has seen.
   */
  lemma NoSlotRace(states: seq<State>, steps: seq<Step>, i: nat)
    requires IsRun(states, steps) && i < |states| && states[i].producer.PWrite?
    ensures var s := states[i];
            && (forall k :: |s.returned| <= k < |s.accepted| ==> k % CAPACITY != s.producer.head)
            && (s.consumer.CRead? ==> s.consumer.tail != s.producer.head)
            && (forall k :: 0 <= k < |s.accepted| && k % CAPACITY == s.producer.head ==> k < s.tailSeen)
  {
    RunInv(states, steps, i);
    var s := states[i];
    assert s.producer.head == |s.accepted| % CAPACITY && |s.accepted| - s.tailSeen < CAPACITY - 1;
    forall k | s.tailSeen <= k < |s.accepted|
      ensures k % CAPACITY != s.producer.head
    {
      DistinctSlots(k, |s.accepted|);
    }
    if s.consumer.CRead? {
      DistinctSlots(|s.returned|, |s.accepted|);
    }
  }

  /** Whenever the consumer is about to read a slot, it has seen the head store that published its event. */
  lemma ReadIsPublished(states: seq<State>, steps: seq<Step>, i: nat)
    requires IsRun(states, steps) && i < |states| && states[i].consumer.CRead?
    ensures var s := states[i];
            && |s.returned| < s.headSeen <= |s.accepted|
            && |s.slots| == CAPACITY && s.slots[s.consumer.tail] == s.accepted[|s.returned|]
  {
    RunInv(states, steps, i);
  }

  // ---------- what the loads justify ----------

  lemma InvIsFifo(s: State)
    requires Inv(s)
    ensures |s.returned| <= |s.accepted|
  {
  }

  lemma RunStarts(states: seq<State>, steps: seq<Step>)
    requires IsRun(states, steps)
    ensures states[0] == Init()
  {
  }

  lemma RunSteps(states: seq<State>, steps: seq<Step>, i: nat)
    requires IsRun(states, steps) && i < |steps|
    ensures Next(states[i], states[i + 1], steps[i])
  {
  }

  ghost function Contents(s: State): seq<KeyEvent>
    requires |s.returned| <= |s.accepted|
  {
    s.accepted[|s.returned|..]
  }

  /**
   * A push drops its event exactly when the tail store it read leaves no room, and a pop returns nothing exactly
   * when the head store it read leaves no event. That is right, the queue being full or empty at that moment,
   * exactly when the load returned the newest store.
   */
  lemma DropsAndMissesAreJustified(s: State, t: State, step: Step)
    requires Inv(s) && Next(s, t, step)
    ensures step.LoadTailStep? ==>
              && (t.producer.PFull? <==> |s.accepted| - step.seen == CAPACITY - 1)
              && (step.seen == |s.returned| ==> (t.producer.PFull? <==> |Contents(s)| == CAPACITY - 1))
              && (t.producer.PFull? ==> (|Contents(s)| == CAPACITY - 1 <==> step.seen == |s.returned|))
    ensures step.LoadHeadStep? ==>
              && (t.consumer.CIdle? <==> step.seen == |s.returned|)
              && (step.seen == |s.accepted| ==> (t.consumer.CIdle? <==> Contents(s) == []))
              && (t.consumer.CIdle? ==> (Contents(s) == [] <==> step.seen == |s.accepted|))
  {
    match step
    case LoadTailStep(seen) =>
      LoadTailInv(s, t, seen);
      hide Stored, Counting;
    case LoadHeadStep(seen) =>
      LoadHeadInv(s, t, seen);
      hide Stored, Counting;
    case _ =>
  }

  // ---------- refinement of a FIFO with delayed views ----------

  /** A bounded FIFO whose producer may not have noticed the latest pops, nor its consumer the latest pushes. */
  datatype DelayedQueue = DelayedQueue(events: seq<KeyEvent>, unseenPops: nat, unseenPushes: nat)

  /**
   * Accepting needs room by the producer's view, and returning an event that the consumer has noticed. Dropping means
   * that the producer, after noticing some pops, still sees no room; returning nothing, that the consumer, after
   * noticing some pushes, still sees no event.
   */
  ghost predicate DelayedStep(v: DelayedQueue, w: DelayedQueue, shown: Label) {
    match shown
    case Silent => w.events == v.events && w.unseenPops <= v.unseenPops && w.unseenPushes <= v.unseenPushes
    case Drop =>
      w == v.(unseenPops := w.unseenPops) && w.unseenPops <= v.unseenPops && |w.events| + w.unseenPops == 255
    case ReturnNone =>
      w == v.(unseenPushes := w.unseenPushes) && w.unseenPushes <= v.unseenPushes && w.unseenPushes == |w.events|
    case Accept(e) =>
      && |v.events| + v.unseenPops < 255
      && w == v.(events := v.events + [e], unseenPushes := v.unseenPushes + 1)
    case Return(e) =>
      && v.unseenPushes < |v.events| && v.events[0] == e
      && w == v.(events := v.events[1..], unseenPops := v.unseenPops + 1)
  }

  ghost function View(s: State): DelayedQueue
    requires s.tailSeen <= |s.returned| <= s.headSeen <= |s.accepted|
  {
    DelayedQueue(Contents(s), |s.returned| - s.tailSeen, |s.accepted| - s.headSeen)
  }

  lemma InvHasView(s: State)
    requires Inv(s)
    ensures s.tailSeen <= |s.returned| <= s.headSeen <= |s.accepted|
  {
  }

  ghost predicate Refines(s: State, t: State, step: Step) {
    && s.tailSeen <= |s.returned| <= s.headSeen <= |s.accepted|
    && t.tailSeen <= |t.returned| <= t.headSeen <= |t.accepted|
    && DelayedStep(View(s), View(t), LabelOf(s, t, step))
  }

  lemma LoadRefines(s: State, t: State, step: Step)
    requires Inv(s) && Next(s, t, step) && (step.LoadTailStep? || step.LoadHeadStep?)
    ensures Refines(s, t, step)
  {
    DropsAndMissesAreJustified(s, t, step);
    InvHasView(s);
    hide Inv;
  }

  lemma StoreHeadRefines(s: State, t: State)
    requires Inv(s) && StoreHead(s, t)
    ensures Refines(s, t, StoreHeadStep)
  {
    hide Stored, Counting, Counted, Fifo;
    assert Contents(t) == Contents(s) + [s.producer.event];
  }

  lemma StoreTailRefines(s: State, t: State)
    requires Inv(s) && StoreTail(s, t)
    ensures Refines(s, t, StoreTailStep)
  {
    hide Stored, Counting, Counted, Fifo;
    assert Contents(s)[0] == s.accepted[|s.returned|];
    assert Contents(t) == Contents(s)[1..];
  }

  lemma OtherRefines(s: State, t: State, step: Step)
    requires Inv(s) && Next(s, t, step)
    requires !step.LoadTailStep? && !step.LoadHeadStep? && !step.StoreHeadStep? && !step.StoreTailStep?
    ensures Refines(s, t, step)
  {
    InvHasView(s);
    hide Inv;
  }

  /** Every step is a step of the FIFO with delayed views on the same label. */
  lemma StepRefinesDelayed(s: State, t: State, step: Step)
    requires Inv(s) && Next(s, t, step)
    ensures s.tailSeen <= |s.returned| <= s.headSeen <= |s.accepted|
    ensures t.tailSeen <= |t.returned| <= t.headSeen <= |t.accepted|
    ensures DelayedStep(View(s), View(t), LabelOf(s, t, step))
  {
    hide Inv, DelayedStep, LabelOf, View;
    match step
    case LoadTailStep(_) => LoadRefines(s, t, step);
    case LoadHeadStep(_) => LoadRefines(s, t, step);
    case StoreHeadStep => StoreHeadRefines(s, t);
    case StoreTailStep => StoreTailRefines(s, t);
    case _ => OtherRefines(s, t, step);
  }

  ghost function Labels(states: seq<State>, steps: seq<Step>, n: nat): seq<Label>
    requires n <= |steps| < |states|
  {
    if n == 0 then [] else Labels(states, steps, n - 1) + [LabelOf(states[n - 1], states[n], steps[n - 1])]
  }

  /** Some execution of the FIFO with delayed views, from empty, shows these labels and ends in `v`. */
  ghost predicate DelayedTrace(labels: seq<Label>, v: DelayedQueue) {
    if labels == [] then v == DelayedQueue([], 0, 0)
    else exists u :: DelayedTrace(labels[..|labels| - 1], u) && DelayedStep(u, v, Last(labels))
  }

  /** What any run shows to its callers, stale loads included, a FIFO with delayed views can show. */
  lemma {:induction false} EveryRunShowsADelayedTrace(states: seq<State>, steps: seq<Step>, n: nat)
    requires |states| == |steps| + 1 && IsRun(states, steps) && n <= |steps|
    ensures states[n].tailSeen <= |states[n].returned| <= states[n].headSeen <= |states[n].accepted|
    ensures DelayedTrace(Labels(states, steps, n), View(states[n]))
    decreases n
  {
    hide IsRun, Inv, Next, LabelOf, DelayedStep;
    RunInv(states, steps, n);
    InvHasView(states[n]);
    if n == 0 {
      RunStarts(states, steps);
    } else {
      EveryRunShowsADelayedTrace(states, steps, n - 1);
      RunInv(states, steps, n - 1);
      RunSteps(states, steps, n - 1);
      StepRefinesDelayed(states[n - 1], states[n], steps[n - 1]);
      var labels := Labels(states, steps, n);
      assert labels[..|labels| - 1] == Labels(states, steps, n - 1);
      assert DelayedStep(View(states[n - 1]), View(states[n]), Last(labels));
    }
  }

  // ---------- refinement of a plain FIFO ----------

  /** A bounded FIFO that drops only when it is full and returns nothing only when it is empty. */
  ghost predicate FifoStep(q: seq<KeyEvent>, q': seq<KeyEvent>, shown: Label) {
    match shown
    case Silent => q' == q
    case Drop => |q| == 255 && q' == q
    case ReturnNone => q == [] && q' == q
    case Accept(e) => |q| < 255 && q' == q + [e]
    case Return(e) => q != [] && q[0] == e && q' == q[1..]
  }

  /** The step is not a load, or loads the newest store. */
  ghost predicate LoadsNewest(s: State, step: Step) {
    && (step.LoadTailStep? ==> step.seen + 1 == |s.tailStores|)
    && (step.LoadHeadStep? ==> step.seen + 1 == |s.headStores|)
  }

  /** If loads return the newest store, every step is a step of the plain bounded FIFO. */
  lemma StepRefinesFifo(s: State, t: State, step: Step)
    requires Inv(s) && Next(s, t, step) && LoadsNewest(s, step)
    ensures |s.returned| <= |s.accepted| && |t.returned| <= |t.accepted|
    ensures FifoStep(Contents(s), Contents(t), LabelOf(s, t, step))
  {
    StepRefinesDelayed(s, t, step);
    hide Stored, Counting, ProducerOk, ConsumerOk, Counted, Fifo;
  }

  /** Some execution of the plain bounded FIFO, from empty, shows these labels and ends holding `q`. */
  ghost predicate FifoTrace(labels: seq<Label>, q: seq<KeyEvent>) {
    if labels == [] then q == []
    else exists p :: FifoTrace(labels[..|labels| - 1], p) && FifoStep(p, q, Last(labels))
  }

  /** Every interleaving of the atomic steps shows its callers a trace of the plain bounded FIFO. */
  lemma {:induction false} EveryInterleavingShowsAFifoTrace(states: seq<State>, steps: seq<Step>, n: nat)
    requires |states| == |steps| + 1 && IsRun(states, steps) && n <= |steps|
    requires forall i :: 0 <= i < n ==> LoadsNewest(states[i], steps[i])
    ensures |states[n].returned| <= |states[n].accepted|
    ensures FifoTrace(Labels(states, steps, n), Contents(states[n]))
    decreases n
  {
    hide IsRun, Inv, Next, LabelOf, FifoStep, LoadsNewest;
    RunInv(states, steps, n);
    InvIsFifo(states[n]);
    if n == 0 {
      RunStarts(states, steps);
    } else {
      EveryInterleavingShowsAFifoTrace(states, steps, n - 1);
      RunInv(states, steps, n - 1);
      RunSteps(states, steps, n - 1);
      StepRefinesFifo(states[n - 1], states[n], steps[n - 1]);
      var labels := Labels(states, steps, n);
      assert labels[..|labels| - 1] == Labels(states, steps, n - 1);
      assert FifoStep(Contents(states[n - 1]), Contents(states[n]), Last(labels));
    }
  }

  // ---------- a stale load can drop an event ----------

  /** A run that ends in state `s`. */
  ghost predicate Reaches(states: seq<State>, steps: seq<Step>, s: State) {
    IsRun(states, steps) && Last(states) == s
  }

  lemma Extend(states: seq<State>, steps: seq<Step>, s: State, t: State, step: Step)
    requires Reaches(states, steps, s) && Next(s, t, step)
    ensures Reaches(states + [t], steps + [step], t)
  {
    var states', steps' := states + [t], steps + [step];
    hide Next;
    forall i | 0 <= i < |steps'|
      ensures Next(states'[i], states'[i + 1], steps'[i])
    {
      if i < |steps| {
        assert Next(states[i], states[i + 1], steps[i]);
      }
    }
  }

  /** Both sides idle, n events accepted, none returned, and the producer has seen only the first tail store. */
  ghost predicate Filled(s: State, n: nat) {
    s.producer.PIdle? && s.consumer.CIdle? && |s.accepted| == n && s.returned == [] && s.tailSeen == 0
  }

  /** A whole push of one more event, while there is room. */
  lemma PushOne(states: seq<State>, steps: seq<Step>, s: State, n: nat)
    returns (states': seq<State>, steps': seq<Step>, t: State)
    requires Reaches(states, steps, s) && Inv(s) && Filled(s, n) && n < CAPACITY - 1
    ensures Reaches(states', steps', t) && Inv(t) && Filled(t, n + 1)
  {
    hide Reaches, Inv;
    InvIndices(s);
    var head := Last(s.headStores);
    var s1 := s.(producer := PLoadTail(Enter, head), pushes := s.pushes + 1);
    var s2 := s1.(producer := PWrite(Enter, head));
    var s3 := s2.(slots := s2.slots[head := Enter], producer := PStore(Enter, head));
    t := s3.(headStores := s3.headStores + [Succ(head)], producer := PIdle, accepted := s3.accepted + [Enter]);
    assert Next(s, s1, BeginPushStep(Enter));
    assert Next(s1, s2, LoadTailStep(0));
    assert Next(s2, s3, WriteSlotStep);
    assert Next(s3, t, StoreHeadStep);
    hide Next;
    Extend(states, steps, s, s1, BeginPushStep(Enter));
    Extend(states + [s1], steps + [BeginPushStep(Enter)], s1, s2, LoadTailStep(0));
    var u, v := states + [s1] + [s2], steps + [BeginPushStep(Enter)] + [LoadTailStep(0)];
    Extend(u, v, s2, s3, WriteSlotStep);
    Extend(u + [s3], v + [WriteSlotStep], s3, t, StoreHeadStep);
    states', steps' := u + [s3] + [t], v + [WriteSlotStep] + [StoreHeadStep];
    NextInv(s, s1, BeginPushStep(Enter));
    NextInv(s1, s2, LoadTailStep(0));
    NextInv(s2, s3, WriteSlotStep);
    NextInv(s3, t, StoreHeadStep);
  }

  lemma InvIndices(s: State)
    requires Inv(s)
    ensures Indices(s) && Last(s.headStores) == |s.accepted| % CAPACITY && s.tailStores[0] == 0
  {
  }

  lemma {:induction false} FillQueue(n: nat) returns (states: seq<State>, steps: seq<Step>, s: State)
    requires n <= CAPACITY - 1
    ensures Reaches(states, steps, s) && Inv(s) && Filled(s, n)
  {
    if n == 0 {
      states, steps, s := [Init()], [], Init();
      InitInv();
    } else {
      states, steps, s := FillQueue(n - 1);
      states, steps, s := PushOne(states, steps, s, n - 1);
    }
  }

  /** A whole pop from the full queue. */
  lemma PopOne(states: seq<State>, steps: seq<Step>, s: State)
    returns (states': seq<State>, steps': seq<Step>, t: State)
    requires Reaches(states, steps, s) && Inv(s) && Filled(s, CAPACITY - 1)
    ensures Reaches(states', steps', t) && Inv(t)
    ensures t.producer.PIdle? && t.tailSeen == 0 && |t.accepted| == CAPACITY - 1 && |t.returned| == 1
  {
    hide Reaches, Inv;
    InvIndices(s);
    var seen := CAPACITY - 1;
    var s1 := s.(consumer := CLoadHead(0));
    var s2 := s1.(headSeen := seen, consumer := CRead(0));
    var s3 := s2.(consumer := CStore(s2.slots[0], 0));
    t := s3.(tailStores := s3.tailStores + [Succ(0)], consumer := CIdle, returned := s3.returned + [s2.slots[0]]);
    assert Next(s, s1, BeginPopStep);
    assert Next(s1, s2, LoadHeadStep(seen));
    assert Next(s2, s3, ReadSlotStep);
    assert Next(s3, t, StoreTailStep);
    hide Next;
    Extend(states, steps, s, s1, BeginPopStep);
    Extend(states + [s1], steps + [BeginPopStep], s1, s2, LoadHeadStep(seen));
    var u, v := states + [s1] + [s2], steps + [BeginPopStep] + [LoadHeadStep(seen)];
    Extend(u, v, s2, s3, ReadSlotStep);
    Extend(u + [s3], v + [ReadSlotStep], s3, t, StoreTailStep);
    states', steps' := u + [s3] + [t], v + [ReadSlotStep] + [StoreTailStep];
    NextInv(s, s1, BeginPopStep);
    NextInv(s1, s2, LoadHeadStep(seen));
    NextInv(s2, s3, ReadSlotStep);
    NextInv(s3, t, StoreTailStep);
  }

  /** With stale acquire loads a push may find the queue full although it holds one event less than it can. */
  lemma StaleLoadDropsEarly() returns (states: seq<State>, steps: seq<Step>)
    ensures IsRun(states, steps)
    ensures var s := Last(states);
            s.producer.PFull? && |s.returned| <= |s.accepted| && s.Queued() == CAPACITY - 2
  {
    var s: State;
    states, steps, s := FillQueue(CAPACITY - 1);
    states, steps, s := PopOne(states, steps, s);
    InvIndices(s);
    var head := Last(s.headStores);
    var s1 := s.(producer := PLoadTail(Enter, head), pushes := s.pushes + 1);
    var s2 := s1.(producer := PFull);
    assert Next(s, s1, BeginPushStep(Enter));
    assert Next(s1, s2, LoadTailStep(0));
    hide Next;
    Extend(states, steps, s, s1, BeginPushStep(Enter));
    Extend(states + [s1], steps + [BeginPushStep(Enter)], s1, s2, LoadTailStep(0));
    states, steps := states + [s1] + [s2], steps + [BeginPushStep(Enter)] + [LoadTailStep(0)];
  }

  // ---------- whole calls ----------

  function Slot(tail: Index, i: nat): Index {
    (tail + i) % CAPACITY
  }

  lemma SlotsAdvance(tail: Index)
    ensures forall i: nat {:trigger Slot((tail + 1) % CAPACITY, i)} ::
              Slot((tail + 1) % CAPACITY, i) == Slot(tail, i + 1)
  {
  }

  /** The queue when its calls do not overlap: `push` and `pop` as they are written. */
  class InputQueue {
    const events: array<KeyEvent>
    var head: Index
    var tail: Index
    var dropped: usize

    ghost predicate Valid()
      reads this
    {
      events.Length == CAPACITY
    }

    ghost function Length(): (n: nat)
      reads this
      ensures n < CAPACITY
    {
      if tail <= head then head - tail else head + CAPACITY - tail
    }

    ghost function Queued(): (q: seq<KeyEvent>)
      reads this, events
      requires Valid()
      ensures |q| == Length()
    {
      seq(Length(), i requires 0 <= i reads this, events requires Valid() => events[Slot(tail, i)])
    }

    constructor ()
      ensures Valid() && fresh(events) && Queued() == [] && dropped == 0
    {
      events := new KeyEvent[CAPACITY](_ => Enter);
      head, tail, dropped := 0, 0, 0;
    }

    method Push(event: KeyEvent)
      requires Valid()
      modifies this, events
      ensures Valid()
      ensures Queued() == if |old(Queued())| < 255 then old(Queued()) + [event] else old(Queued())
      ensures dropped == if |old(Queued())| < 255 then old(dropped)
                         else (old(dropped) + 1) % USIZE_LIMIT
    {
      var next: Index := (head + 1) % CAPACITY;
      if next == tail {
        dropped := (dropped + 1) % USIZE_LIMIT;
        return;
      }
      ghost var n := Length();
      assert Slot(tail, n) == head;
      forall i | 0 <= i < n
        ensures Slot(tail, i) != head
      {
        DistinctSlots(tail + i, tail + n);
      }
      hide Slot;
      events[head] := event;
      head := next;
      assert Length() == n + 1;
      assert Queued() == old(Queued()) + [event];
    }

    method Pop() returns (event: Option<KeyEvent>)
      requires Valid()
      modifies this
      ensures Valid() && dropped == old(dropped)
      ensures old(Queued()) == [] ==> event == None && Queued() == []
      ensures old(Queued()) != [] ==> event == Some(old(Queued())[0]) && Queued() == old(Queued())[1..]
    {
      if tail == head {
        return None;
      }
      event := Some(events[tail]);
      ghost var n := Length();
      SlotsAdvance(tail);
      assert Slot(tail, 0) == tail;
      tail := (tail + 1) % CAPACITY;
      assert Length() == n - 1;
      hide Slot;
      assert Queued() == old(Queued())[1..];
    }
  }
}
