/** Directory scanning: the three nested loops of `visit_directory` against the directory's entry list. */
module Directory {
  import opened Machine
  import opened Storage
  import opened Fat32
  import opened ClusterWalk
  import opened FatChain
  import opened ShortNames

  const TERMINATOR: byte := 0x00
  const DELETED: byte := 0xe5
  const ATTR_VOLUME_ID: byte := 0x08
  const ATTR_LONG_FILE_NAME: byte := 0x0f
  const RECORDS_PER_SECTOR := 16

  // A stateful Rust closure, as a function of every entry it has been offered, the newest last.
  type Visitor = seq<DirEntry> -> bool

  datatype Progress = Progress(done: bool, seen: seq<DirEntry>)

  predicate Skipped(raw: Record) {
    || raw[0] == DELETED || raw[0] == DOT
    || raw[11] == ATTR_LONG_FILE_NAME || BitAnd(raw[11], ATTR_VOLUME_ID) != 0
  }

  /** The entry that a record before the terminator stands for, if any. */
  function LiveEntry(raw: Record): Option<DirEntry> {
    if Skipped(raw) then None else Decode(raw)
  }

  function ScanRecord(raw: Record, seen: seq<DirEntry>, keep: Visitor): Progress {
    if raw[0] == TERMINATOR then Progress(true, seen)
    else match LiveEntry(raw)
         case None => Progress(false, seen)
         case Some(entry) => Progress(!keep(seen + [entry]), seen + [entry])
  }

  /** A record with the volume bit, which every long-name record has, is skipped; so are deleted and dot records. */
  lemma SkippedExactly(raw: Record)
    ensures Skipped(raw) <==> raw[0] == 0xe5 || raw[0] == 0x2e || raw[11] / 8 % 2 == 1
  {
    BitTest(raw[11], 3);
    assert Pow2(3) == 8;
  }

  /** What a record does to the scan, by its raw bytes. */
  lemma RecordOutcome(raw: Record, seen: seq<DirEntry>, keep: Visitor)
    ensures ScanRecord(raw, seen, keep) ==
            if raw[0] == 0 then Progress(true, seen)
            else if raw[0] == 0xe5 || raw[0] == 0x2e || raw[11] / 8 % 2 == 1 || Decode(raw).None?
            then Progress(false, seen)
            else Progress(!keep(seen + [Decode(raw).value]), seen + [Decode(raw).value])
  {
    SkippedExactly(raw);
    hide Skipped, Decode;
  }

  /** Scanning a list of records, starting after `seen`. */
  function Scan(records: seq<Record>, seen: seq<DirEntry>, keep: Visitor): Progress {
    if records == [] then Progress(false, seen)
    else
      var p := Scan(records[..|records| - 1], seen, keep);
      if p.done then p else ScanRecord(Last(records), p.seen, keep)
  }

  lemma ScanOne(records: seq<Record>, raw: Record, seen: seq<DirEntry>, keep: Visitor)
    ensures var p := Scan(records, seen, keep);
            Scan(records + [raw], seen, keep) == if p.done then p else ScanRecord(raw, p.seen, keep)
  {
    assert (records + [raw])[..|records|] == records;
  }

  lemma {:induction false} ScanConcat(a: seq<Record>, b: seq<Record>, seen: seq<DirEntry>, keep: Visitor)
    ensures var p := Scan(a, seen, keep);
            Scan(a + b, seen, keep) == if p.done then p else Scan(b, p.seen, keep)
    decreases |b|
  {
    if b == [] {
      assert a + b == a;
    } else {
      var front := b[..|b| - 1];
      ScanConcat(a, front, seen, keep);
      assert b == front + [Last(b)];
      assert a + b == (a + front) + [Last(b)];
      ScanOne(a + front, Last(b), seen, keep);
    }
  }

  // ---------- the entry list a directory denotes ----------

  function BeforeTerminator(records: seq<Record>): seq<Record> {
    if records == [] || records[0][0] == TERMINATOR then [] else [records[0]] + BeforeTerminator(records[1..])
  }

  /** The live entries of a record list, in order. */
  function Live(records: seq<Record>): seq<DirEntry> {
    if records == [] then []
    else (match LiveEntry(records[0]) case None => [] case Some(e) => [e]) + Live(records[1..])
  }

  function Entries(records: seq<Record>): seq<DirEntry> {
    Live(BeforeTerminator(records))
  }

  ghost predicate Terminated(records: seq<Record>) {
    exists i :: 0 <= i < |records| && records[i][0] == TERMINATOR
  }

  /** The visitor answers true to each of the first `n` entries. */
  ghost predicate KeepsThrough(entries: seq<DirEntry>, n: nat, seen: seq<DirEntry>, keep: Visitor)
    requires n <= |entries|
  {
    forall i :: 1 <= i <= n ==> keep(seen + entries[..i])
  }

  /** How many entries the visitor is offered: through the first it refuses, or all of them. */
  ghost predicate OfferedCount(entries: seq<DirEntry>, n: nat, seen: seq<DirEntry>, keep: Visitor) {
    && n <= |entries|
    && (n == |entries| || (0 < n && !keep(seen + entries[..n])))
    && (0 < n ==> KeepsThrough(entries, n - 1, seen, keep))
  }

  lemma OfferOneMore(e: DirEntry, rest: seq<DirEntry>, n: nat, seen: seq<DirEntry>, keep: Visitor)
    requires keep(seen + [e]) && OfferedCount(rest, n, seen + [e], keep)
    ensures OfferedCount([e] + rest, n + 1, seen, keep)
    ensures seen + ([e] + rest)[..n + 1] == (seen + [e]) + rest[..n]
  {
    var entries := [e] + rest;
    assert seen + entries[..n + 1] == (seen + [e]) + rest[..n];
    forall i | 1 <= i <= n
      ensures keep(seen + entries[..i])
    {
      assert seen + entries[..i] == (seen + [e]) + rest[..i - 1];
      if i == 1 {
        assert (seen + [e]) + rest[..0] == seen + [e];
      }
    }
  }

  /** Scanning offers the visitor the entry list in order, and stops exactly at a refusal or the terminator. */
  lemma {:induction false} ScanOffersEntries(records: seq<Record>, seen: seq<DirEntry>, keep: Visitor) returns (n: nat)
    ensures OfferedCount(Entries(records), n, seen, keep)
    ensures Scan(records, seen, keep).seen == seen + Entries(records)[..n]
    ensures Scan(records, seen, keep).done <==>
            Terminated(records) || (0 < n && !keep(seen + Entries(records)[..n]))
    decreases |records|
  {
    if records == [] {
      n := 0;
      return;
    }
    var first, rest := records[0], records[1..];
    assert records == [first] + rest;
    ScanConcat([first], rest, seen, keep);
    ScanOne([], first, seen, keep);
    assert [] + [first] == [first];
    assert Scan([], seen, keep) == Progress(false, seen);
    hide Scan, LiveEntry, Terminated;
    if first[0] == TERMINATOR {
      TerminatedAtHead(records);
      n := 0;
      return;
    }
    TerminatedTail(records);
    match LiveEntry(first)
    case None =>
      n := ScanOffersEntries(rest, seen, keep);
      assert Entries(records) == Entries(rest);
    case Some(e) =>
      assert Entries(records) == [e] + Entries(rest);
      assert Entries(records)[..1] == [e];
      if !keep(seen + [e]) {
        n := 1;
      } else {
        hide OfferedCount;
        var m := ScanOffersEntries(rest, seen + [e], keep);
        OfferOneMore(e, Entries(rest), m, seen, keep);
        if m == 0 {
          assert (seen + [e]) + Entries(rest)[..0] == seen + [e];
        }
        n := m + 1;
      }
  }

  lemma TerminatedAtHead(records: seq<Record>)
    requires records != [] && records[0][0] == TERMINATOR
    ensures Terminated(records)
  {
  }

  lemma TerminatedTail(records: seq<Record>)
    requires records != [] && records[0][0] != TERMINATOR
    ensures Terminated(records) <==> Terminated(records[1..])
  {
    if Terminated(records[1..]) {
      var i :| 0 <= i < |records[1..]| && records[1..][i][0] == TERMINATOR;
      assert records[i + 1][0] == TERMINATOR;
    }
    if Terminated(records) {
      var i :| 0 <= i < |records| && records[i][0] == TERMINATOR;
      assert records[1..][i - 1][0] == TERMINATOR;
    }
  }

  // ---------- the records on disk ----------

  function RecordAt(data: seq<byte>, i: nat): Record
    requires (i + 1) * RECORD_SIZE <= |data|
  {
    data[i * RECORD_SIZE..(i + 1) * RECORD_SIZE]
  }

  function ClusterRecords(v: Volume, cluster: u32): (s: seq<Record>)
    requires v.WellFormed() && v.IsValidCluster(cluster)
    ensures |s| == v.sectorsPerCluster * RECORDS_PER_SECTOR
  {
    var data := ClusterData(v, cluster);
    seq(v.sectorsPerCluster * RECORDS_PER_SECTOR, i requires 0 <= i < v.sectorsPerCluster * RECORDS_PER_SECTOR =>
      RecordAt(data, i))
  }

  function ChainRecords(v: Volume, s: seq<u32>): seq<Record>
    requires v.WellFormed() && AllValid(v, s)
  {
    if s == [] then [] else ChainRecords(v, s[..|s| - 1]) + ClusterRecords(v, Last(s))
  }

  lemma ChainRecordsAppend(v: Volume, s: seq<u32>, c: u32)
    requires v.WellFormed() && AllValid(v, s) && v.IsValidCluster(c)
    ensures AllValid(v, s + [c]) && ChainRecords(v, s + [c]) == ChainRecords(v, s) + ClusterRecords(v, c)
  {
    assert (s + [c])[..|s|] == s;
  }

  lemma {:induction false} ChainRecordsConcat(v: Volume, s: seq<u32>, t: seq<u32>)
    requires v.WellFormed() && AllValid(v, s) && AllValid(v, t)
    ensures AllValid(v, s + t) && ChainRecords(v, s + t) == ChainRecords(v, s) + ChainRecords(v, t)
    decreases |t|
  {
    if t == [] {
      assert s + t == s;
    } else {
      var front := t[..|t| - 1];
      ChainRecordsConcat(v, s, front);
      assert (s + t)[..|s + t| - 1] == s + front;
    }
  }

  lemma PieceInFront(front: seq<byte>, last: seq<byte>, k: nat)
    requires 32 * k + 32 <= |front|
    ensures (front + last)[32 * k..32 * k + 32] == front[32 * k..32 * k + 32]
  {
  }

  lemma PieceInLast(front: seq<byte>, last: seq<byte>, n: nat, k: nat)
    requires |front| == 32 * n && 32 * k + 32 <= |last|
    ensures (front + last)[32 * (n + k)..32 * (n + k) + 32] == last[32 * k..32 * k + 32]
  {
    assert (front + last)[|front|..|front| + |last|] == last;
    SliceOfSlice(front + last, |front|, |last|, 32 * k, 32 * k + 32);
  }

  /** The records of a directory are the consecutive 32-byte pieces of its chain's bytes. */
  lemma {:induction false} RecordsArePieces(v: Volume, s: seq<u32>, k: nat)
    requires v.WellFormed() && AllValid(v, s)
    ensures 32 * |ChainRecords(v, s)| == |ChainData(v, s)|
    ensures k < |ChainRecords(v, s)| ==> ChainRecords(v, s)[k] == ChainData(v, s)[32 * k..32 * k + 32]
    decreases |s|
  {
    hide Volume.WellFormed, ClusterData, Times;
    if s == [] {
    } else {
      var front, c := s[..|s| - 1], Last(s);
      var n := |ChainRecords(v, front)|;
      RecordsArePieces(v, front, k);
      if k < n {
        PieceInFront(ChainData(v, front), ClusterData(v, c), k);
      } else if k < |ChainRecords(v, s)| {
        PieceInLast(ChainData(v, front), ClusterData(v, c), n, k - n);
      }
    }
  }

  // ---------- visit_directory ----------

  /** The clusters a walker may scan: those of the chain, at most cluster_count + 1 of them. */
  ghost function Scannable(v: Volume, start: u32): (s: seq<u32>)
    requires v.WellFormed() && v.IsValidCluster(start)
    ensures AllValid(v, s)
  {
    ChainIsValid(v, start, v.clusterCount + 1);
    Chain(v, start, v.clusterCount + 1)
  }

  /** What a walker reports when no record made it stop. */
  ghost function Ending(v: Volume, start: u32): Result<(), FsError> {
    var reach := Chain(v, start, v.clusterCount + 2);
    if |reach| == v.clusterCount + 2 then Err(DirectoryLoop)
    else match HopFrom(v, Last(reach))
         case Broken(e) => Err(e)
         case _ => Ok(())
  }

  /** What visiting a directory comes to: its result, and the entries offered to the visitor. */
  ghost function VisitOutcome(v: Volume, start: u32, keep: Visitor): (Result<(), FsError>, seq<DirEntry>)
    requires v.WellFormed()
  {
    if !v.IsValidCluster(start) then (Err(InvalidCluster), [])
    else
      var p := Scan(ChainRecords(v, Scannable(v, start)), [], keep);
      (if p.done then Ok(()) else Ending(v, start), p.seen)
  }

  lemma SectorRecords(v: Volume, cluster: u32, index: u32, j: nat)
    requires v.WellFormed() && v.IsValidCluster(cluster) && index < v.sectorsPerCluster && j < RECORDS_PER_SECTOR
    ensures |ClusterData(v, cluster)| == v.ClusterBytes()
    ensures RecordAt(ClusterData(v, cluster)[index * SECTOR_SIZE..(index + 1) * SECTOR_SIZE], j)
         == ClusterRecords(v, cluster)[index * RECORDS_PER_SECTOR + j]
  {
    SliceOfSlice(ClusterData(v, cluster), index * SECTOR_SIZE, SECTOR_SIZE, j * RECORD_SIZE, (j + 1) * RECORD_SIZE);
  }

  /** The body of the innermost loop, branch by branch. */
  method VisitRecord(raw: Record, seen: seq<DirEntry>, keep: Visitor) returns (p: Progress)
    ensures p == ScanRecord(raw, seen, keep)
  {
    if raw[0] == TERMINATOR {
      return Progress(true, seen);
    }
    if raw[0] == DELETED || raw[0] == DOT || raw[11] == ATTR_LONG_FILE_NAME
       || BitAnd(raw[11], ATTR_VOLUME_ID) != 0 {
      return Progress(false, seen);
    }
    var entry := FromRaw(raw);
    if entry.Some? {
      var offered := seen + [entry.value];
      if !keep(offered) {
        return Progress(true, offered);
      }
      return Progress(false, offered);
    }
    p := Progress(false, seen);
  }

  /** The innermost loop: the 16 records of one sector. */
  method VisitSector(sector: seq<byte>, ghost before: seq<Record>, seen0: seq<DirEntry>, keep: Visitor,
                     ghost records: seq<Record>)
    returns (p: Progress)
    requires |sector| == SECTOR_SIZE && |records| == RECORDS_PER_SECTOR
    requires forall j :: 0 <= j < RECORDS_PER_SECTOR ==> records[j] == RecordAt(sector, j)
    requires Scan(before, [], keep) == Progress(false, seen0)
    ensures p == Scan(before + records, [], keep)
  {
    hide Scan, ScanRecord, LiveEntry, RecordAt;
    var seen := seen0;
    var j := 0;
    assert before + records[..0] == before;
    while j < RECORDS_PER_SECTOR
      invariant 0 <= j <= RECORDS_PER_SECTOR
      invariant Scan(before + records[..j], [], keep) == Progress(false, seen)
    {
      p := VisitRecord(RecordAt(sector, j), seen, keep);
      assert before + records[..j + 1] == (before + records[..j]) + [records[j]];
      ScanOne(before + records[..j], records[j], [], keep);
      if p.done {
        ScanConcat(before + records[..j + 1], records[j + 1..], [], keep);
        assert before + records == (before + records[..j + 1]) + records[j + 1..];
        return;
      }
      seen := p.seen;
      j := j + 1;
    }
    assert records[..j] == records;
    p := Progress(false, seen);
  }

  /** The middle loop: the sectors of one cluster. */
  method VisitCluster(v: Volume, cluster: u32, ghost before: seq<Record>, seen0: seq<DirEntry>, keep: Visitor)
    returns (p: Progress)
    requires v.WellFormed() && v.IsValidCluster(cluster)
    requires Scan(before, [], keep) == Progress(false, seen0)
    ensures p == Scan(before + ClusterRecords(v, cluster), [], keep)
  {
    hide Scan, ClusterData, ClusterToSector, SectorAt, RecordAt;
    ghost var all := ClusterRecords(v, cluster);
    var sector := new byte[SECTOR_SIZE];
    var seen := seen0;
    var index: u32 := 0;
    assert before + all[..0] == before;
    while index < v.sectorsPerCluster
      invariant index <= v.sectorsPerCluster
      invariant Scan(before + all[..index * RECORDS_PER_SECTOR], [], keep) == Progress(false, seen)
    {
      SectorOfCluster(v, cluster, index);
      var lba := ClusterToSector(v, cluster, index);
      assert lba.Ok?; // so the source's early exit here is dead code
      var read := ReadSector(v.disk, lba.value, sector);
      assert read.Ok?; // likewise
      ghost var at := index * RECORDS_PER_SECTOR;
      ghost var part := all[at..at + RECORDS_PER_SECTOR];
      forall j | 0 <= j < RECORDS_PER_SECTOR
        ensures part[j] == RecordAt(sector[..], j)
      {
        SectorRecords(v, cluster, index, j);
      }
      p := VisitSector(sector[..], before + all[..at], seen, keep, part);
      assert (before + all[..at]) + part == before + all[..at + RECORDS_PER_SECTOR];
      if p.done {
        ScanConcat(before + all[..at + RECORDS_PER_SECTOR], all[at + RECORDS_PER_SECTOR..], [], keep);
        assert before + all == (before + all[..at + RECORDS_PER_SECTOR]) + all[at + RECORDS_PER_SECTOR..];
        return;
      }
      seen := p.seen;
      index := index + 1;
    }
    assert all[..index * RECORDS_PER_SECTOR] == all;
    p := Progress(false, seen);
  }

  // The ways out of the outer loop.

  lemma UsedSoFar(v: Volume, start: u32, round: nat, path: seq<u32>, cluster: u32) returns (rest: seq<u32>)
    requires v.WellFormed() && v.IsValidCluster(start)
    requires round <= v.clusterCount && AtRound(v, start, round, path, cluster)
    ensures Scannable(v, start) == path + [cluster] + rest && AllValid(v, rest)
  {
    hide HopFrom, Walk, Volume.WellFormed;
    var used := Scannable(v, start);
    WalkPrefix(FatHops(v), start, round + 1, v.clusterCount + 1);
    assert |path + [cluster]| == round + 1;
    rest := used[round + 1..];
    assert used == used[..round + 1] + rest;
  }

  lemma VisitStopsEarly(v: Volume, start: u32, keep: Visitor, round: nat, path: seq<u32>, cluster: u32)
    requires v.WellFormed() && v.IsValidCluster(start)
    requires round <= v.clusterCount && AtRound(v, start, round, path, cluster)
    requires AllValid(v, path + [cluster]) && Scan(ChainRecords(v, path + [cluster]), [], keep).done
    ensures VisitOutcome(v, start, keep) == (Ok(()), Scan(ChainRecords(v, path + [cluster]), [], keep).seen)
  {
    hide Volume.WellFormed, AtRound, AllValid, Scannable, Scan, ChainRecords, Ending;
    var s := path + [cluster];
    var t := UsedSoFar(v, start, round, path, cluster);
    ChainRecordsConcat(v, s, t);
    ScanConcat(ChainRecords(v, s), ChainRecords(v, t), [], keep);
  }

  lemma VisitEnds(v: Volume, start: u32, keep: Visitor, round: nat, path: seq<u32>, cluster: u32)
    requires v.WellFormed() && v.IsValidCluster(start)
    requires round <= v.clusterCount && AtRound(v, start, round, path, cluster)
    requires AllValid(v, path + [cluster]) && !Scan(ChainRecords(v, path + [cluster]), [], keep).done
    requires !HopFrom(v, cluster).Next?
    ensures var h := HopFrom(v, cluster);
            VisitOutcome(v, start, keep) == (if h.Broken? then Err(h.error) else Ok(()),
                                             Scan(ChainRecords(v, path + [cluster]), [], keep).seen)
  {
    hide HopFrom, Walk, Scan, ClusterRecords;
    var limit := v.clusterCount + 1;
    WalkGrows(FatHops(v), start, round + 1);
    assert Chain(v, start, round + 2) == path + [cluster];
    ShortWalkIsWhole(FatHops(v), start, round + 2, limit + 1);
    WalkPrefix(FatHops(v), start, limit, limit + 1);
    assert Scannable(v, start) == path + [cluster];
  }

  lemma VisitLoops(v: Volume, start: u32, keep: Visitor, path: seq<u32>, cluster: u32)
    requires v.WellFormed() && v.IsValidCluster(start)
    requires AtRound(v, start, v.clusterCount + 1, path, cluster)
    requires AllValid(v, path) && !Scan(ChainRecords(v, path), [], keep).done
    ensures VisitOutcome(v, start, keep) == (Err(DirectoryLoop), Scan(ChainRecords(v, path), [], keep).seen)
  {
    hide HopFrom, Walk, Scan, ClusterRecords;
  }

  lemma NothingVisited(v: Volume, start: u32, keep: Visitor)
    requires v.WellFormed()
    ensures !v.IsValidCluster(start) ==> VisitOutcome(v, start, keep) == (Err(InvalidCluster), [])
    ensures Scan(ChainRecords(v, []), [], keep) == Progress(false, [])
  {
  }

  /** `visit_directory`. */
  method VisitDirectory(v: Volume, start: u32, keep: Visitor) returns (r: Result<(), FsError>, seen: seq<DirEntry>)
    requires v.WellFormed()
    ensures (r, seen) == VisitOutcome(v, start, keep)
  {
    hide HopFrom, VisitOutcome, AtRound, Volume.WellFormed, Scan, ChainRecords, ClusterRecords, Chain;
    NothingVisited(v, start, keep);
    seen := [];
    if !v.IsValidCluster(start) {
      return Err(InvalidCluster), seen;
    }
    var cluster, round := start, 0;
    ghost var path: seq<u32> := [];
    FirstRound(v, start);
    while round <= v.clusterCount
      invariant round <= v.clusterCount + 1
      invariant AtRound(v, start, round, path, cluster)
      invariant v.IsValidCluster(cluster) && AllValid(v, path)
      invariant Scan(ChainRecords(v, path), [], keep) == Progress(false, seen)
      decreases v.clusterCount + 1 - round
    {
      ChainRecordsAppend(v, path, cluster);
      var p := VisitCluster(v, cluster, ChainRecords(v, path), seen, keep);
      seen := p.seen;
      if p.done {
        VisitStopsEarly(v, start, keep, round, path, cluster);
        return Ok(()), seen;
      }
      var hop := HopFrom(v, cluster);
      if !hop.Next? {
        VisitEnds(v, start, keep, round, path, cluster);
        return if hop.Broken? then Err(hop.error) else Ok(()), seen;
      }
      NextRound(v, start, round, path, cluster);
      HopIsValid(v, cluster);
      path := path + [cluster];
      cluster := hop.cluster;
      round := round + 1;
    }
    VisitLoops(v, start, keep, path, cluster);
    r := Err(DirectoryLoop);
  }

  // ---------- what visiting promises ----------

  function ShowAll(): Visitor {
    (seen: seq<DirEntry>) => true
  }

  /** A visitor that never refuses sees the whole entry list of the directory. */
  lemma VisitorThatNeverStopsSeesAll(v: Volume, start: u32)
    requires v.WellFormed() && v.IsValidCluster(start)
    ensures VisitOutcome(v, start, ShowAll()) ==
            (if Terminated(ChainRecords(v, Scannable(v, start))) then Ok(()) else Ending(v, start),
             Entries(ChainRecords(v, Scannable(v, start))))
  {
    var records := ChainRecords(v, Scannable(v, start));
    var n := ScanOffersEntries(records, [], ShowAll());
    hide Scan, Entries, Ending;
    var entries := Entries(records);
    assert 0 < n ==> ShowAll()([] + entries[..n]);
    assert [] + entries[..|entries|] == entries;
  }

  /** A chain that stops never revisits a cluster, so it has no more clusters than the volume. */
  lemma StoppedChainIsShort(v: Volume, s: seq<u32>)
    requires v.WellFormed() && s != [] && IsChain(v, s) && v.IsValidCluster(s[0])
    requires !HopFrom(v, Last(s)).Next?
    ensures |s| <= v.clusterCount
  {
    hide Volume.WellFormed, Walk, HopFrom, IsChain, Revisits;
    OnDiskChainIsFollowed(v, s);
    if v.clusterCount < |s| {
      LongChainRevisits(v, s[0], |s|);
      RevisitingWalkNeverEnds(FatHops(v), s[0], |s|, |s| + 1);
      WalkGrows(FatHops(v), s[0], |s|);
    }
  }

  /** A chain that stops is scanned as a whole, and how it stops is what a walk to its end reports. */
  lemma ScannableIsWhole(v: Volume, s: seq<u32>)
    requires v.WellFormed() && s != [] && IsChain(v, s) && v.IsValidCluster(s[0])
    requires !HopFrom(v, Last(s)).Next?
    ensures Scannable(v, s[0]) == s
    ensures var h := HopFrom(v, Last(s));
            Ending(v, s[0]) == if h.Broken? then Err(h.error) else Ok(())
  {
    hide Volume.WellFormed, Walk, HopFrom, IsChain;
    StoppedChainIsShort(v, s);
    OnDiskChainIsFollowed(v, s);
    WalkGrows(FatHops(v), s[0], |s|);
    assert Chain(v, s[0], |s| + 1) == s;
    ShortWalkIsWhole(FatHops(v), s[0], |s| + 1, v.clusterCount + 2);
    WalkPrefix(FatHops(v), s[0], v.clusterCount + 1, v.clusterCount + 2);
  }

  lemma {:induction false} ChainHasValid(v: Volume, s: seq<u32>)
    requires v.WellFormed() && IsChain(v, s)
    ensures AllValid(v, s)
  {
    if s == [] {
    } else {
      ChainHasValid(v, s[1..]);
      assert s == [s[0]] + s[1..];
    }
  }

  /**
   * A directory whose chain of clusters is `s`, by its marks: the visitor is offered the entries of those clusters
   * through the first that it refuses, and the visit fails exactly if it reaches a broken end.
   */
  lemma VisitWholeDirectory(v: Volume, s: seq<u32>, keep: Visitor) returns (n: nat)
    requires v.WellFormed() && s != [] && IsChain(v, s)
    requires EndsChain(v, Last(s)) || BreaksChain(v, Last(s))
    ensures AllValid(v, s)
    ensures var records := ChainRecords(v, s);
            var entries := Entries(records);
            && OfferedCount(entries, n, [], keep)
            && VisitOutcome(v, s[0], keep).1 == entries[..n]
            && VisitOutcome(v, s[0], keep).0 ==
               if Terminated(records) || EndsChain(v, Last(s)) || (0 < n && !keep(entries[..n])) then Ok(())
               else Err(CorruptFat)
  {
    ChainHasValid(v, s);
    StopIsMarked(v, Last(s));
    HopIsValid(v, Last(s));
    ScannableIsWhole(v, s);
    n := ScanOffersEntries(ChainRecords(v, s), [], keep);
    hide Volume.WellFormed, HopFrom, IsChain, Scan, ChainRecords, Scannable, Ending, Entries, EndsChain, BreaksChain;
    var entries := Entries(ChainRecords(v, s));
    assert [] + entries[..n] == entries[..n];
  }

  lemma EndingCases(v: Volume, start: u32)
    requires v.WellFormed() && v.IsValidCluster(start)
    ensures Ending(v, start) in {Ok(()), Err(DirectoryLoop), Err(CorruptFat)}
    ensures Ending(v, start) == Err(DirectoryLoop) <==> Revisits(Scannable(v, start))
    ensures Revisits(Scannable(v, start)) ==> |Scannable(v, start)| == v.clusterCount + 1
  {
    hide HopFrom, Walk, Revisits;
    var limit := v.clusterCount + 1;
    var reach := Chain(v, start, limit + 1);
    WalkPrefix(FatHops(v), start, limit, limit + 1);
    if Revisits(Scannable(v, start)) {
      RevisitingWalkNeverEnds(FatHops(v), start, limit, limit);
      RevisitingWalkNeverEnds(FatHops(v), start, limit, limit + 1);
    } else if |reach| == limit + 1 {
      LongChainRevisits(v, start, limit);
    }
    if |reach| < limit + 1 {
      ChainIsValid(v, start, limit + 1);
      HopIsValid(v, Last(reach));
    }
  }

  lemma DoneExactly(records: seq<Record>, keep: Visitor)
    ensures Scan(records, [], keep).done <==>
            Terminated(records) || !KeepsThrough(Entries(records), |Entries(records)|, [], keep)
  {
    var n := ScanOffersEntries(records, [], keep);
    hide Scan, Terminated;
    var entries := Entries(records);
    if 0 < n {
      assert [] + entries[..n] == entries[..n];
    }
  }

  /** The guard fires exactly on chains that revisit a cluster and on which no record stops the scan. */
  lemma VisitLoopExactly(v: Volume, start: u32, keep: Visitor)
    requires v.WellFormed()
    ensures VisitOutcome(v, start, keep).0 == Err(DirectoryLoop) <==>
            && v.IsValidCluster(start)
            && Revisits(Scannable(v, start))
            && var records := ChainRecords(v, Scannable(v, start));
               !Terminated(records) && KeepsThrough(Entries(records), |Entries(records)|, [], keep)
    ensures VisitOutcome(v, start, keep).0 == Err(DirectoryLoop) ==> |Scannable(v, start)| == v.clusterCount + 1
  {
    if v.IsValidCluster(start) {
      EndingCases(v, start);
      DoneExactly(ChainRecords(v, Scannable(v, start)), keep);
      hide Scannable, Ending, Revisits, Scan, ChainRecords, Entries, Terminated, KeepsThrough;
    }
  }

  /** Visiting a directory of a mounted volume never surfaces a device error. */
  lemma VisitNeverFailsOnDevice(v: Volume, start: u32, keep: Visitor)
    requires v.WellFormed()
    ensures VisitOutcome(v, start, keep).0 in
            {Ok(()), Err(InvalidCluster), Err(DirectoryLoop), Err(CorruptFat)}
  {
    if v.IsValidCluster(start) {
      EndingCases(v, start);
    }
  }
}
