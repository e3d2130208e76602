/** Physical frames: which ones the memory map offers, who gets them, and the mapping of the first heap. */
module Frames {
  import opened Machine
  import opened BumpHeap

  const FRAME := 4096
  const FRAME_BITS := 12
  const MAX_PHYSICAL := 0x10_0000_0000_0000 // a physical address has 52 bits
  const HEAP_START := 0x5555_0000_0000
  const HEAP_SIZE := 2 * 1024 * 1024
  const HEAP_PAGES := 512

  datatype Region = Region(start: usize, end: usize, usable: bool)

  // A larger address in a usable region makes the source panic when it turns it into a physical address.
  ghost predicate Addressable(regions: seq<Region>) {
    forall i :: 0 <= i < |regions| && regions[i].usable ==>
      regions[i].start <= MAX_PHYSICAL && regions[i].end <= MAX_PHYSICAL
  }

  /** `address & !(SIZE - 1)`. */
  function FloorFrame(address: usize): nat {
    BitAnd(address, USIZE_LIMIT - FRAME)
  }

  /** `align_up`. */
  function CeilFrame(address: usize): nat
    requires address + FRAME - 1 < USIZE_LIMIT
  {
    BitAnd(address + FRAME - 1, USIZE_LIMIT - FRAME)
  }

  lemma FrameBits()
    ensures Pow2(FRAME_BITS) == FRAME
  {
    assert Pow2(6) == 64;
  }

  lemma FloorIsDivision(address: usize)
    ensures FloorFrame(address) == address / 4096 * 4096
  {
    WordLimit();
    FrameBits();
    hide LowBits, BitAnd, Pow2, Times;
    AndHighMask(address, FRAME_BITS, WORD);
    var q := LowBitsIsRemainder(address, FRAME_BITS);
    TimesIsProduct(q, FRAME);
  }

  /** Rounding up is rounding down after adding all but one byte of a frame. */
  lemma CeilIsDivision(address: usize)
    requires address + FRAME - 1 < USIZE_LIMIT
    ensures CeilFrame(address) == (address + 4095) / 4096 * 4096
  {
    FloorIsDivision(address + FRAME - 1);
  }

  // ---------- usable_frames ----------

  /** `(from..to).step_by(SIZE)`. */
  function Stepped(from: nat, to: nat): seq<nat>
    decreases if from < to then to - from else 0
  {
    if from >= to then [] else [from] + Stepped(from + FRAME, to)
  }

  function RegionFrames(r: Region): seq<nat>
    requires r.usable ==> r.start <= MAX_PHYSICAL && r.end <= MAX_PHYSICAL
  {
    if r.usable then Stepped(CeilFrame(r.start), FloorFrame(r.end)) else []
  }

  /** Every frame the allocator may hand out, in order. */
  function UsableFrames(regions: seq<Region>): seq<nat>
    requires Addressable(regions)
  {
    if regions == [] then [] else UsableFrames(regions[..|regions| - 1]) + RegionFrames(Last(regions))
  }

  /** A whole frame inside a usable region. */
  ghost predicate FrameIn(r: Region, frame: nat) {
    r.usable && frame % FRAME == 0 && r.start <= frame && frame + FRAME <= r.end
  }

  lemma {:induction false} SteppedAscends(from: nat, to: nat)
    requires from % FRAME == 0 && to % FRAME == 0
    ensures forall i :: 0 <= i < |Stepped(from, to)| ==> Stepped(from, to)[i] == from + i * FRAME
    ensures from <= to ==> from + |Stepped(from, to)| * FRAME == to
    ensures from > to ==> Stepped(from, to) == []
    decreases if from < to then to - from else 0
  {
    if from >= to {
    } else {
      SteppedAscends(from + FRAME, to);
    }
  }

  /** A frame lies in a range iff it lies in the range shrunk to frame boundaries. */
  lemma FrameBoundaries(start: usize, end: usize, frame: nat)
    requires start + FRAME - 1 < USIZE_LIMIT && frame % FRAME == 0
    ensures CeilFrame(start) % FRAME == 0 && FloorFrame(end) % FRAME == 0
    ensures start <= frame <==> CeilFrame(start) <= frame
    ensures frame + FRAME <= end <==> frame < FloorFrame(end)
  {
    CeilIsDivision(start);
    FloorIsDivision(end);
    hide CeilFrame, FloorFrame;
  }

  lemma {:induction false} SteppedExact(from: nat, to: nat, frame: nat)
    requires from % FRAME == 0 && to % FRAME == 0
    ensures frame in Stepped(from, to) <==> frame % FRAME == 0 && from <= frame < to
    decreases if from < to then to - from else 0
  {
    if from >= to {
    } else {
      SteppedExact(from + FRAME, to, frame);
    }
  }

  /** A region offers exactly the whole frames inside it ... */
  lemma RegionFramesExact(r: Region, frame: nat)
    requires r.usable ==> r.start <= MAX_PHYSICAL && r.end <= MAX_PHYSICAL
    ensures frame in RegionFrames(r) <==> FrameIn(r, frame)
  {
    hide CeilFrame, FloorFrame, Stepped;
    if r.usable {
      FrameBoundaries(r.start, r.end, frame / FRAME * FRAME);
      SteppedExact(CeilFrame(r.start), FloorFrame(r.end), frame);
    }
  }

  /** ... and each only once. */
  lemma RegionFramesAscend(r: Region)
    requires r.usable ==> r.start <= MAX_PHYSICAL && r.end <= MAX_PHYSICAL
    ensures forall i, j :: 0 <= i < j < |RegionFrames(r)| ==> RegionFrames(r)[i] < RegionFrames(r)[j]
  {
    if r.usable {
      CeilIsDivision(r.start);
      FloorIsDivision(r.end);
      hide CeilFrame, FloorFrame;
      SteppedAscends(CeilFrame(r.start), FloorFrame(r.end));
      hide Stepped;
    }
  }

  ghost predicate InSomeRegion(regions: seq<Region>, frame: nat) {
    exists i :: 0 <= i < |regions| && FrameIn(regions[i], frame)
  }

  lemma InFrontOrLast(regions: seq<Region>, frame: nat)
    requires regions != []
    ensures InSomeRegion(regions, frame) <==>
            InSomeRegion(regions[..|regions| - 1], frame) || FrameIn(Last(regions), frame)
  {
    hide FrameIn;
    var front, last := regions[..|regions| - 1], |regions| - 1;
    if i :| 0 <= i < |front| && FrameIn(front[i], frame) {
      assert FrameIn(regions[i], frame);
    }
    if i :| 0 <= i < |regions| && FrameIn(regions[i], frame) {
      assert i < last ==> FrameIn(front[i], frame);
    }
  }

  /** The allocator's frames are exactly the whole frames of the usable regions. */
  lemma {:induction false} UsableFramesExact(regions: seq<Region>, frame: nat)
    requires Addressable(regions)
    ensures frame in UsableFrames(regions) <==> InSomeRegion(regions, frame)
  {
    hide RegionFrames, FrameIn;
    if regions == [] {
    } else {
      var front := regions[..|regions| - 1];
      UsableFramesExact(front, frame);
      RegionFramesExact(Last(regions), frame);
      InFrontOrLast(regions, frame);
      hide InSomeRegion;
    }
  }

  /** Regions offer their frames in the order of the memory map. */
  lemma {:induction false} UsableFramesInMapOrder(a: seq<Region>, b: seq<Region>)
    requires Addressable(a) && Addressable(b)
    ensures Addressable(a + b) && UsableFrames(a + b) == UsableFrames(a) + UsableFrames(b)
    decreases |b|
  {
    hide RegionFrames;
    if b == [] {
      assert a + b == a;
    } else {
      var front := b[..|b| - 1];
      UsableFramesInMapOrder(a, front);
      assert (a + b)[..|a + b| - 1] == a + front && Last(a + b) == Last(b);
      assert UsableFrames(a + b) == UsableFrames(a) + UsableFrames(front) + RegionFrames(Last(b));
    }
  }

  /** Usable regions do not overlap. */
  ghost predicate DisjointUsable(regions: seq<Region>) {
    forall i, j :: 0 <= i < j < |regions| && regions[i].usable && regions[j].usable ==>
      regions[i].end <= regions[j].start || regions[j].end <= regions[i].start
  }

  ghost predicate Distinct(s: seq<nat>) {
    forall i, j :: 0 <= i < j < |s| ==> s[i] != s[j]
  }

  /** Over disjoint regions no frame is offered twice. */
  lemma {:induction false} UsableFramesDistinct(regions: seq<Region>)
    requires Addressable(regions) && DisjointUsable(regions)
    ensures Distinct(UsableFrames(regions))
  {
    if regions == [] {
    } else {
      var front, r := regions[..|regions| - 1], Last(regions);
      UsableFramesDistinct(front);
      var a, b := UsableFrames(front), RegionFrames(r);
      RegionFramesAscend(r);
      forall i, j | 0 <= i < |a| && 0 <= j < |b|
        ensures a[i] != b[j]
      {
        UsableFramesExact(front, a[i]);
        RegionFramesExact(r, b[j]);
        var k :| 0 <= k < |front| && FrameIn(front[k], a[i]);
        assert regions[k] == front[k];
      }
      hide UsableFrames, RegionFrames;
      DistinctConcat(a, b);
    }
  }

  lemma DistinctConcat(a: seq<nat>, b: seq<nat>)
    requires Distinct(a)
    requires forall i, j :: 0 <= i < j < |b| ==> b[i] < b[j]
    requires forall i, j :: 0 <= i < |a| && 0 <= j < |b| ==> a[i] != b[j]
    ensures Distinct(a + b)
  {
  }

  // ---------- the frame allocator ----------

  class BootInfoFrameAllocator {
    const regions: seq<Region>
    var next: nat

    constructor (regions: seq<Region>)
      ensures this.regions == regions && next == 0
    {
      this.regions := regions;
      next := 0;
    }

    method AllocateFrame() returns (frame: Option<nat>)
      requires Addressable(regions)
      modifies this
      ensures next == old(next) + 1
      ensures frame == if old(next) < |UsableFrames(regions)| then Some(UsableFrames(regions)[old(next)]) else None
    {
      var frames := UsableFrames(regions);
      frame := if next < |frames| then Some(frames[next]) else None;
      next := next + 1;
    }

    /** k calls yield the first min(k, count) frames, and then nothing. */
    method AllocateMany(k: nat) returns (frames: seq<Option<nat>>)
      requires Addressable(regions)
      modifies this
      ensures |frames| == k && next == old(next) + k
      ensures forall i :: 0 <= i < k ==>
                frames[i] == if old(next) + i < |UsableFrames(regions)| then Some(UsableFrames(regions)[old(next) + i])
                             else None
    {
      hide UsableFrames;
      frames := [];
      for n := 0 to k
        invariant |frames| == n && next == old(next) + n
        invariant forall i :: 0 <= i < n ==>
                    frames[i] == if old(next) + i < |UsableFrames(regions)|
                                 then Some(UsableFrames(regions)[old(next) + i]) else None
      {
        var frame := AllocateFrame();
        frames := frames + [frame];
      }
    }
  }

  // ---------- init_heap ----------

  // What a frame is used for: a heap page, or a page table the mapper needed.
  datatype Use = HeapPage(page: nat, frame: nat) | Table(frame: nat)

  datatype MapError = FrameAllocationFailed | MappingRefused

  // `map_to` wants some number of frames for page tables, and may refuse.
  datatype Mapper = Mapper(tables: nat -> nat, refuses: nat -> bool)

  function PageAddress(i: nat): nat {
    HEAP_START + i * FRAME
  }

  function TablesBefore(m: Mapper, n: nat): nat {
    if n == 0 then 0 else TablesBefore(m, n - 1) + m.tables(n - 1)
  }

  /** Use number k was given frame number first + k. */
  ghost predicate InOrder(uses: seq<Use>, frames: seq<nat>, first: nat) {
    forall k :: 0 <= k < |uses| ==> first + k < |frames| && uses[k].frame == frames[first + k]
  }

  function HeapPages(uses: seq<Use>): seq<nat> {
    if uses == [] then []
    else HeapPages(uses[..|uses| - 1]) + if Last(uses).HeapPage? then [Last(uses).page] else []
  }

  lemma OneMoreUse(uses: seq<Use>, use: Use)
    ensures HeapPages(uses + [use]) == HeapPages(uses) + if use.HeapPage? then [use.page] else []
  {
    assert (uses + [use])[..|uses|] == uses;
  }

  /** `map_to`, as far as its use of the frame allocator goes. */
  method TakeTables(allocator: BootInfoFrameAllocator, wanted: nat, before: seq<Use>, ghost first: nat)
    returns (ok: bool, uses: seq<Use>)
    requires Addressable(allocator.regions) && before != []
    requires allocator.next == first + |before| && InOrder(before, UsableFrames(allocator.regions), first)
    modifies allocator
    ensures InOrder(uses, UsableFrames(allocator.regions), first) && HeapPages(uses) == HeapPages(before)
    ensures ok <==> first + |before| + wanted <= |UsableFrames(allocator.regions)|
    ensures ok ==> allocator.next == first + |uses| && |uses| == |before| + wanted
  {
    hide UsableFrames, HeapPages;
    uses := before;
    for n := 0 to wanted
      invariant |uses| == |before| + n && allocator.next == first + |uses|
      invariant InOrder(uses, UsableFrames(allocator.regions), first) && HeapPages(uses) == HeapPages(before)
    {
      var frame := allocator.AllocateFrame();
      if frame.None? {
        return false, uses;
      }
      OneMoreUse(uses, Table(frame.value));
      uses := uses + [Table(frame.value)];
    }
    InOrderBound(uses, UsableFrames(allocator.regions), first);
    ok := true;
  }

  lemma InOrderBound(uses: seq<Use>, frames: seq<nat>, first: nat)
    requires InOrder(uses, frames, first) && uses != []
    ensures first + |uses| <= |frames|
  {
    assert uses[|uses| - 1].frame == frames[first + (|uses| - 1)];
  }

  /** One round of the loop in `init_heap`: a frame for the page, then the mapper's own frames. */
  method MapPage(allocator: BootInfoFrameAllocator, mapper: Mapper, n: nat, before: seq<Use>, ghost first: nat)
    returns (r: Result<(), MapError>, uses: seq<Use>)
    requires Addressable(allocator.regions)
    requires allocator.next == first + |before| && InOrder(before, UsableFrames(allocator.regions), first)
    modifies allocator
    ensures InOrder(uses, UsableFrames(allocator.regions), first)
    ensures r.Ok? <==>
            first + |before| + 1 + mapper.tables(n) <= |UsableFrames(allocator.regions)| && !mapper.refuses(n)
    ensures r == Err(FrameAllocationFailed) <==>
            first + |before| + 1 + mapper.tables(n) > |UsableFrames(allocator.regions)|
    ensures r.Ok? ==> allocator.next == first + |uses| && |uses| == |before| + 1 + mapper.tables(n)
    ensures r.Ok? ==> HeapPages(uses) == HeapPages(before) + [PageAddress(n)]
  {
    hide UsableFrames, HeapPages;
    uses := before;
    var frame := allocator.AllocateFrame();
    if frame.None? {
      return Err(FrameAllocationFailed), uses;
    }
    OneMoreUse(uses, HeapPage(PageAddress(n), frame.value));
    uses := uses + [HeapPage(PageAddress(n), frame.value)];
    var ok: bool;
    ok, uses := TakeTables(allocator, mapper.tables(n), uses, first);
    if !ok {
      return Err(FrameAllocationFailed), uses;
    }
    if mapper.refuses(n) {
      return Err(MappingRefused), uses;
    }
    r := Ok(());
  }

  function PagesUpTo(n: nat): seq<nat> {
    seq(n, i requires 0 <= i => PageAddress(i))
  }

  /** Mapping reaches page n: no earlier page was refused or ran out of frames. */
  ghost predicate Reaches(m: Mapper, n: nat, free: int) {
    n + TablesBefore(m, n) <= Max(free, 0) && forall i :: 0 <= i < n ==> !m.refuses(i)
  }

  /** Page n is the one that fails, for want of frames or because the mapper refuses it. */
  ghost predicate FailsAt(m: Mapper, n: nat, free: int, error: MapError) {
    Reaches(m, n, free)
    && if n + 1 + TablesBefore(m, n + 1) > free then error == FrameAllocationFailed
       else m.refuses(n) && error == MappingRefused
  }

  ghost predicate SomePageFails(m: Mapper, free: int, error: MapError) {
    exists n :: 0 <= n < HEAP_PAGES && FailsAt(m, n, free, error)
  }

  /** `init_heap` up to the call that hands the range to the bump allocator. */
  method MapHeap(allocator: BootInfoFrameAllocator, mapper: Mapper) returns (r: Result<(), MapError>, uses: seq<Use>)
    requires Addressable(allocator.regions)
    modifies allocator
    ensures InOrder(uses, UsableFrames(allocator.regions), old(allocator.next))
    ensures r.Ok? ==> HeapPages(uses) == PagesUpTo(HEAP_PAGES)
    ensures r.Ok? <==>
            && old(allocator.next) + HEAP_PAGES + TablesBefore(mapper, HEAP_PAGES)
               <= |UsableFrames(allocator.regions)|
            && forall i :: 0 <= i < HEAP_PAGES ==> !mapper.refuses(i)
    ensures r.Err? ==>
              SomePageFails(mapper, |UsableFrames(allocator.regions)| - old(allocator.next), r.error)
  {
    hide UsableFrames, InOrder;
    ghost var first := allocator.next;
    uses := [];
    NothingUsedYet(UsableFrames(allocator.regions), first, mapper);
    hide HeapPages, TablesBefore;
    for n := 0 to HEAP_PAGES
      invariant |uses| == n + TablesBefore(mapper, n) && allocator.next == first + |uses|
      invariant InOrder(uses, UsableFrames(allocator.regions), first)
      invariant HeapPages(uses) == PagesUpTo(n)
      invariant forall i :: 0 <= i < n ==> !mapper.refuses(i)
      invariant 0 < n ==> first + |uses| <= |UsableFrames(allocator.regions)|
    {
      TablesGrow(mapper, n + 1, HEAP_PAGES);
      OneMorePage(mapper, n);
      var mapped: Result<(), MapError>;
      mapped, uses := MapPage(allocator, mapper, n, uses, first);
      if mapped.Err? {
        assert FailsAt(mapper, n, |UsableFrames(allocator.regions)| - first, mapped.error);
        return mapped, uses;
      }
    }
    r := Ok(());
  }

  /** `init_heap`: only a fully mapped range reaches the bump allocator. */
  method InitHeap(allocator: BootInfoFrameAllocator, mapper: Mapper, heap: BumpAllocator)
    returns (r: Result<(), MapError>, uses: seq<Use>)
    requires Addressable(allocator.regions) && heap.Valid() && heap.start == 0
    modifies allocator, heap
    ensures heap.Valid() && InOrder(uses, UsableFrames(allocator.regions), old(allocator.next))
    ensures r.Ok? ==> HeapPages(uses) == PagesUpTo(HEAP_PAGES)
    ensures r.Ok? ==> heap.start == heap.next == 0x5555_0000_0000 && heap.end == 0x5555_0020_0000
    ensures r.Err? ==> heap.start == 0 && heap.end == old(heap.end) && heap.next == old(heap.next)
    ensures r.Err? ==>
              SomePageFails(mapper, |UsableFrames(allocator.regions)| - old(allocator.next), r.error)
  {
    hide UsableFrames, InOrder, HeapPages, SomePageFails;
    r, uses := MapHeap(allocator, mapper);
    if r.Ok? {
      heap.Initialise(HEAP_START, HEAP_SIZE);
    }
  }

  lemma NothingUsedYet(frames: seq<nat>, first: nat, m: Mapper)
    ensures InOrder([], frames, first) && HeapPages([]) == PagesUpTo(0) && TablesBefore(m, 0) == 0
  {
  }

  lemma OneMorePage(m: Mapper, n: nat)
    ensures TablesBefore(m, n + 1) == TablesBefore(m, n) + m.tables(n)
    ensures PagesUpTo(n) + [PageAddress(n)] == PagesUpTo(n + 1)
  {
  }

  lemma {:induction false} TablesGrow(m: Mapper, n: nat, k: nat)
    requires n <= k
    ensures TablesBefore(m, n) <= TablesBefore(m, k)
    decreases k
  {
    if n == k {
    } else {
      TablesGrow(m, n, k - 1);
    }
  }

  /** Every use got a whole frame of a usable region. */
  lemma EveryUseIsUsable(regions: seq<Region>, uses: seq<Use>, first: nat, i: nat)
    requires Addressable(regions) && InOrder(uses, UsableFrames(regions), first) && i < |uses|
    ensures InSomeRegion(regions, uses[i].frame)
  {
    hide UsableFrames;
    UsableFramesExact(regions, uses[i].frame);
  }

  /** Heap pages and page tables never share a frame. */
  lemma UsesAreDistinct(regions: seq<Region>, uses: seq<Use>, first: nat, i: nat, j: nat)
    requires Addressable(regions) && DisjointUsable(regions) && InOrder(uses, UsableFrames(regions), first)
    requires i < j < |uses|
    ensures uses[i].frame != uses[j].frame
  {
    UsableFramesDistinct(regions);
    hide UsableFrames;
  }

  ghost predicate OnPage(address: nat, i: nat) {
    PageAddress(i) <= address < PageAddress(i) + FRAME
  }

  /** The mapped pages cover exactly the range given to the bump allocator, each address on one page. */
  lemma PagesCoverHeap(address: nat)
    ensures 0x5555_0000_0000 <= address < 0x5555_0020_0000 <==>
            exists i :: 0 <= i < 512 && OnPage(address, i)
    ensures forall i: nat, j: nat | OnPage(address, i) && OnPage(address, j) :: i == j
  {
    if HEAP_START <= address < HEAP_START + HEAP_SIZE {
      var i := (address - HEAP_START) / FRAME;
      assert OnPage(address, i);
    }
  }
}
