/** Path resolution, and the two public operations that take a path. */
module Paths {
  import opened Machine
  import Storage
  import opened Fat32
  import opened ClusterWalk
  import opened FatChain
  import opened ShortNames
  import opened FileReader
  import opened Directory

  const SLASH: byte := 0x2f

  // A path is its UTF-8 bytes: '/' and '.' are single bytes and case folding touches ASCII only.
  type Path = seq<byte>

  // ---------- names ----------

  function Lower(b: byte): byte {
    if 0x41 <= b <= 0x5a then b + 0x20 else b
  }

  predicate SameName(a: seq<byte>, b: seq<byte>) {
    |a| == |b| && forall i :: 0 <= i < |a| ==> Lower(a[i]) == Lower(b[i])
  }

  /** The same letter in the two cases of ASCII. */
  predicate CasesOfALetter(upper: byte, lower: byte) {
    'A' as int <= upper <= 'Z' as int && lower == upper + ('a' as int - 'A' as int)
  }

  /** Names are the same iff they have the same bytes up to the case of ASCII letters. */
  lemma SameNameExactly(a: seq<byte>, b: seq<byte>)
    ensures SameName(a, b) <==>
            && |a| == |b|
            && forall i :: 0 <= i < |a| ==> a[i] == b[i] || CasesOfALetter(a[i], b[i]) || CasesOfALetter(b[i], a[i])
  {
    forall i | 0 <= i < |a| && i < |b|
      ensures Lower(a[i]) == Lower(b[i]) <==>
              a[i] == b[i] || CasesOfALetter(a[i], b[i]) || CasesOfALetter(b[i], a[i])
    {
    }
  }

  /** The closure of `find_in_directory`: stop at the first entry with the name. */
  function Matcher(name: seq<byte>): Visitor {
    (seen: seq<DirEntry>) => seen == [] || !SameName(Last(seen).name, name)
  }

  function FirstMatch(entries: seq<DirEntry>, name: seq<byte>): Option<DirEntry> {
    if entries == [] then None
    else if SameName(entries[0].name, name) then Some(entries[0])
    else FirstMatch(entries[1..], name)
  }

  lemma {:induction false} FirstMatchAt(entries: seq<DirEntry>, n: nat, name: seq<byte>)
    requires n <= |entries|
    requires forall i :: 0 <= i < n ==> !SameName(entries[i].name, name)
    requires n < |entries| ==> SameName(entries[n].name, name)
    ensures FirstMatch(entries, name) == if n < |entries| then Some(entries[n]) else None
    decreases n
  {
    hide SameName;
    if n == 0 {
    } else {
      FirstMatchAt(entries[1..], n - 1, name);
    }
  }

  // ---------- lookup of one component ----------

  /** Looking up a name: the first live entry of that name before the terminator, or how the walk ends. */
  ghost function FindOutcome(v: Volume, cluster: u32, name: seq<byte>): Result<DirEntry, FsError>
    requires v.WellFormed()
  {
    if !v.IsValidCluster(cluster) then Err(InvalidCluster)
    else
      var records := ChainRecords(v, Scannable(v, cluster));
      match FirstMatch(Entries(records), name)
      case Some(entry) => Ok(entry)
      case None =>
        if Terminated(records) then Err(NotFound)
        else match Ending(v, cluster)
             case Err(e) => Err(e)
             case Ok(_) => Err(NotFound)
  }

  lemma MatcherStops(records: seq<Record>, name: seq<byte>)
    ensures var p := Scan(records, [], Matcher(name));
            match FirstMatch(Entries(records), name)
            case Some(entry) => p.done && p.seen != [] && Last(p.seen) == entry && SameName(entry.name, name)
            case None => (p.done <==> Terminated(records)) && (p.seen != [] ==> !SameName(Last(p.seen).name, name))
  {
    var keep := Matcher(name);
    var n := ScanOffersEntries(records, [], keep);
    var entries := Entries(records);
    hide Scan, Terminated, SameName, Entries;
    assert [] + entries[..n] == entries[..n];
    forall i | 0 <= i && i + 1 < n
      ensures !SameName(entries[i].name, name)
    {
      assert keep([] + entries[..i + 1]);
      assert Last([] + entries[..i + 1]) == entries[i];
    }
    if 0 < n {
      assert Last(entries[..n]) == entries[n - 1];
      FirstMatchAt(entries, if SameName(entries[n - 1].name, name) then n - 1 else n, name);
    } else {
      FirstMatchAt(entries, 0, name);
    }
  }

  /** `find_in_directory`. */
  method FindInDirectory(v: Volume, cluster: u32, name: seq<byte>) returns (r: Result<DirEntry, FsError>)
    requires v.WellFormed()
    ensures r == FindOutcome(v, cluster, name)
  {
    hide Scan, SameName, Ending, FirstMatch;
    var visited, seen := VisitDirectory(v, cluster, Matcher(name));
    if v.IsValidCluster(cluster) {
      MatcherStops(ChainRecords(v, Scannable(v, cluster)), name);
    }
    match visited
    case Err(e) =>
      r := Err(e);
    case Ok(_) =>
      r := if seen != [] && SameName(Last(seen).name, name) then Ok(Last(seen)) else Err(NotFound);
  }

  lemma {:induction false} BeforeTerminatorConcat(a: seq<Record>, b: seq<Record>)
    ensures BeforeTerminator(a + b) == if Terminated(a) then BeforeTerminator(a) else a + BeforeTerminator(b)
    ensures Terminated(a + b) <==> Terminated(a) || Terminated(b)
  {
    if a == [] {
      assert a + b == b;
    } else {
      assert (a + b)[1..] == a[1..] + b;
      if a[0][0] == TERMINATOR {
        TerminatedAtHead(a);
        TerminatedAtHead(a + b);
      } else {
        BeforeTerminatorConcat(a[1..], b);
        TerminatedTail(a);
        TerminatedTail(a + b);
        hide Terminated;
        assert (a + b)[0] == a[0];
        assert a == [a[0]] + a[1..];
        assert a + BeforeTerminator(b) == [a[0]] + (a[1..] + BeforeTerminator(b));
      }
    }
  }

  lemma {:induction false} LiveConcat(a: seq<Record>, b: seq<Record>)
    ensures Live(a + b) == Live(a) + Live(b)
  {
    hide LiveEntry;
    if a == [] {
      assert a + b == b;
    } else {
      assert (a + b)[1..] == a[1..] + b;
      LiveConcat(a[1..], b);
    }
  }

  lemma {:induction false} FirstMatchConcat(a: seq<DirEntry>, b: seq<DirEntry>, name: seq<byte>)
    ensures FirstMatch(a + b, name) == if FirstMatch(a, name).Some? then FirstMatch(a, name) else FirstMatch(b, name)
  {
    hide SameName;
    if a == [] {
      assert a + b == b;
    } else {
      assert (a + b)[1..] == a[1..] + b;
      FirstMatchConcat(a[1..], b, name);
    }
  }

  lemma MatchInPrefix(a: seq<Record>, b: seq<Record>, name: seq<byte>)
    requires FirstMatch(Entries(a), name).Some?
    ensures FirstMatch(Entries(a + b), name) == FirstMatch(Entries(a), name)
  {
    BeforeTerminatorConcat(a, b);
    if !Terminated(a) {
      NoTerminatorKeepsAll(a);
      LiveConcat(a, BeforeTerminator(b));
      FirstMatchConcat(Live(a), Live(BeforeTerminator(b)), name);
    }
  }

  lemma NoTerminatorKeepsAll(a: seq<Record>)
    requires !Terminated(a)
    ensures BeforeTerminator(a) == a
  {
    BeforeTerminatorConcat(a, []);
    assert a + [] == a;
  }

  lemma ScannableStartsWith(v: Volume, s: seq<u32>) returns (t: seq<u32>)
    requires v.WellFormed() && s != [] && IsChain(v, s) && v.IsValidCluster(s[0]) && |s| <= v.clusterCount + 1
    ensures Scannable(v, s[0]) == s + t && AllValid(v, s) && AllValid(v, t)
  {
    hide Volume.WellFormed, Walk, HopFrom, IsChain;
    OnDiskChainIsFollowed(v, s);
    WalkPrefix(FatHops(v), s[0], |s|, v.clusterCount + 1);
    var used := Scannable(v, s[0]);
    t := used[|s|..];
    assert used == s + t;
    assert forall i :: 0 <= i < |s| ==> used[i] == s[i];
  }

  /** A match in the first clusters of a chain is the answer, whatever follows them on the disk. */
  lemma EarlyMatchHidesTheRest(v: Volume, s: seq<u32>, name: seq<byte>)
    requires v.WellFormed() && s != [] && IsChain(v, s) && AllValid(v, s) && |s| <= v.clusterCount + 1
    requires FirstMatch(Entries(ChainRecords(v, s)), name).Some?
    ensures FindOutcome(v, s[0], name) == Ok(FirstMatch(Entries(ChainRecords(v, s)), name).value)
  {
    hide Volume.WellFormed, IsChain, FirstMatch, Entries, Ending, ChainRecords, Scannable, Terminated;
    var t := ScannableStartsWith(v, s);
    ChainRecordsConcat(v, s, t);
    MatchInPrefix(ChainRecords(v, s), ChainRecords(v, t), name);
  }

  /** Looking up a name in a whole directory: its first entry of that name, else how its chain ends. */
  lemma FindInWholeDirectory(v: Volume, s: seq<u32>, name: seq<byte>)
    requires v.WellFormed() && s != [] && IsChain(v, s)
    requires EndsChain(v, Last(s)) || BreaksChain(v, Last(s))
    ensures AllValid(v, s)
    ensures var records := ChainRecords(v, s);
            FindOutcome(v, s[0], name) ==
            match FirstMatch(Entries(records), name)
            case Some(entry) => Ok(entry)
            case None => Err(if Terminated(records) || EndsChain(v, Last(s)) then NotFound else CorruptFat)
  {
    ChainHasValid(v, s);
    StopIsMarked(v, Last(s));
    HopIsValid(v, Last(s));
    ScannableIsWhole(v, s);
    hide Volume.WellFormed, HopFrom, IsChain, FirstMatch, Entries, Ending, ChainRecords, Scannable, Terminated;
    hide EndsChain, BreaksChain;
  }

  /** Looking up a name where there is no chain at all, or one that only goes round. */
  lemma FindWithoutEnd(v: Volume, cluster: u32, name: seq<byte>)
    requires v.WellFormed()
    ensures !v.IsValidCluster(cluster) ==> FindOutcome(v, cluster, name) == Err(InvalidCluster)
    ensures v.IsValidCluster(cluster) && Revisits(Scannable(v, cluster)) ==>
              var records := ChainRecords(v, Scannable(v, cluster));
              FindOutcome(v, cluster, name) ==
              match FirstMatch(Entries(records), name)
              case Some(entry) => Ok(entry)
              case None => Err(if Terminated(records) then NotFound else DirectoryLoop)
  {
    if v.IsValidCluster(cluster) {
      EndingCases(v, cluster);
    }
  }

  // ---------- components ----------

  /** The text before the first '/', and the text after it if there is one. */
  function Split(path: Path): (parts: seq<seq<byte>>)
    ensures parts != []
  {
    if path == [] then [[]]
    else
      var rest := Split(path[1..]);
      if path[0] == SLASH then [[]] + rest else [[path[0]] + rest[0]] + rest[1..]
  }

  function NonEmpty(parts: seq<seq<byte>>): seq<seq<byte>> {
    if parts == [] then [] else (if parts[0] == [] then [] else [parts[0]]) + NonEmpty(parts[1..])
  }

  /** `path.split('/').filter(|c| !c.is_empty())`. */
  function Components(path: Path): seq<seq<byte>> {
    NonEmpty(Split(path))
  }

  lemma {:induction false} SplitAtSlash(p: Path, q: Path)
    ensures Split(p + [SLASH] + q) == Split(p) + Split(q)
  {
    if p == [] {
      assert (p + [SLASH] + q)[1..] == q;
    } else {
      assert (p + [SLASH] + q)[1..] == p[1..] + [SLASH] + q;
      SplitAtSlash(p[1..], q);
    }
  }

  lemma {:induction false} NonEmptyConcat(a: seq<seq<byte>>, b: seq<seq<byte>>)
    ensures NonEmpty(a + b) == NonEmpty(a) + NonEmpty(b)
  {
    if a == [] {
      assert a + b == b;
    } else {
      assert (a + b)[1..] == a[1..] + b;
      NonEmptyConcat(a[1..], b);
    }
  }

  /** Joining two paths with '/' joins their components, so repeated and outer slashes do not matter. */
  lemma ComponentsOfJoin(p: Path, q: Path)
    ensures Components(p + [0x2f] + q) == Components(p) + Components(q)
  {
    SplitAtSlash(p, q);
    NonEmptyConcat(Split(p), Split(q));
  }

  function Joined(names: seq<seq<byte>>): Path {
    if names == [] then [] else Joined(names[..|names| - 1]) + [SLASH] + Last(names)
  }

  lemma {:induction false} SplitPlain(name: seq<byte>)
    requires SLASH !in name
    ensures Split(name) == [name]
  {
    if name == [] {
    } else {
      SplitPlain(name[1..]);
      assert name == [name[0]] + name[1..];
    }
  }

  /** Splitting undoes joining. */
  lemma {:induction false} ComponentsUndoJoined(names: seq<seq<byte>>)
    requires forall i :: 0 <= i < |names| ==> names[i] != [] && 0x2f !in names[i]
    ensures Components(Joined(names)) == names
  {
    if names == [] {
    } else {
      var front, name := names[..|names| - 1], Last(names);
      ComponentsUndoJoined(front);
      ComponentsOfJoin(Joined(front), name);
      SplitPlain(name);
      assert NonEmpty([name]) == [name];
      assert names == front + [name];
    }
  }

  predicate AllSlashes(path: Path) {
    forall i :: 0 <= i < |path| ==> path[i] == SLASH
  }

  /** The test of `list_dir` for the root agrees with having no components. */
  lemma {:induction false} AllSlashesHasNoComponents(path: Path)
    ensures AllSlashes(path) <==> Components(path) == []
  {
    if path == [] {
    } else {
      AllSlashesHasNoComponents(path[1..]);
      var rest := Split(path[1..]);
      if path[0] == SLASH {
        assert ([[]] + rest)[1..] == rest;
        assert AllSlashes(path) <==> AllSlashes(path[1..]) by {
          assert path == [path[0]] + path[1..];
        }
      }
    }
  }

  // ---------- resolution ----------

  const CURRENT: seq<byte> := [DOT]
  const PARENT: seq<byte> := [DOT, DOT]

  /** Descending through a nonempty list of names from a directory. */
  ghost function Descend(v: Volume, directory: u32, names: seq<seq<byte>>): Result<DirEntry, FsError>
    requires v.WellFormed() && names != []
    decreases |names|
  {
    if names[0] == CURRENT || names[0] == PARENT then Err(NotFound)
    else
      match FindOutcome(v, directory, names[0])
      case Err(e) => Err(e)
      case Ok(entry) =>
        if |names| == 1 then Ok(entry)
        else if !entry.IsDirectory() then Err(NotDirectory)
        else Descend(v, entry.firstCluster, names[1..])
  }

  ghost function ResolveOutcome(v: Volume, path: Path): Result<DirEntry, FsError>
    requires v.WellFormed()
  {
    if Components(path) == [] then Err(NotFound) else Descend(v, v.root, Components(path))
  }

  /** `resolve_path`. */
  method ResolvePath(v: Volume, path: Path) returns (r: Result<DirEntry, FsError>)
    requires v.WellFormed()
    ensures r == ResolveOutcome(v, path)
  {
    hide FindOutcome, Components;
    var components := Components(path);
    if components == [] {
      return Err(NotFound);
    }
    if components[0] == CURRENT || components[0] == PARENT {
      return Err(NotFound);
    }
    var directory := v.root;
    var i := 0;
    assert components[0..] == components;
    while true
      invariant 0 <= i < |components|
      invariant components[i] != CURRENT && components[i] != PARENT
      invariant ResolveOutcome(v, path) == Descend(v, directory, components[i..])
      decreases |components| - i
    {
      var found := FindInDirectory(v, directory, components[i]);
      if found.Err? {
        return Err(found.error);
      }
      if i + 1 == |components| {
        return found;
      }
      if !found.value.IsDirectory() {
        return Err(NotDirectory);
      }
      assert components[i..][1..] == components[i + 1..];
      if components[i + 1] == CURRENT || components[i + 1] == PARENT {
        return Err(NotFound);
      }
      directory := found.value.firstCluster;
      i := i + 1;
    }
  }

  /** Descending through a + b is descending through a, then through b from where that ended. */
  lemma {:induction false} DescendComposes(v: Volume, directory: u32, a: seq<seq<byte>>, b: seq<seq<byte>>)
    requires v.WellFormed() && a != [] && b != []
    ensures Descend(v, directory, a + b) ==
            match Descend(v, directory, a)
            case Err(e) => Err(e)
            case Ok(entry) =>
              if !entry.IsDirectory() then Err(NotDirectory) else Descend(v, entry.firstCluster, b)
    decreases |a|
  {
    hide FindOutcome;
    assert (a + b)[1..] == a[1..] + b;
    if |a| == 1 {
      assert a[1..] + b == b;
    } else {
      var found := FindOutcome(v, directory, a[0]);
      if found.Ok? {
        DescendComposes(v, found.value.firstCluster, a[1..], b);
      }
    }
  }

  /** "." and "..". */
  predicate IsDots(name: seq<byte>) {
    name == [0x2e] || name == [0x2e, 0x2e]
  }

  lemma DescendOne(v: Volume, directory: u32, name: seq<byte>)
    requires v.WellFormed()
    ensures Descend(v, directory, [name]) == if IsDots(name) then Err(NotFound) else FindOutcome(v, directory, name)
  {
  }

  /** A dot component fails after everything before it has been resolved, and before anything after it is. */
  lemma DotsFail(v: Volume, directory: u32, before: seq<seq<byte>>, dots: seq<byte>, after: seq<seq<byte>>)
    requires v.WellFormed() && IsDots(dots)
    ensures Descend(v, directory, before + ([dots] + after)) ==
            if before == [] then Err(NotFound)
            else match Descend(v, directory, before)
                 case Err(e) => Err(e)
                 case Ok(entry) => Err(if entry.IsDirectory() then NotFound else NotDirectory)
  {
    if before == [] {
      assert before + ([dots] + after) == [dots] + after;
    } else {
      DescendComposes(v, directory, before, [dots] + after);
    }
  }

  // ---------- the public operations ----------

  ghost function ReadPathOutcome(v: Volume, path: Path): (Result<usize, FsError>, seq<byte>)
    requires v.WellFormed()
  {
    match ResolveOutcome(v, path)
    case Err(e) => (Err(e), [])
    case Ok(entry) =>
      if entry.IsDirectory() then (Err(IsDirectory), []) else ReadOutcome(v, entry.firstCluster, entry.size)
  }

  /** `read_file`. */
  method ReadFile(v: Volume, path: Path) returns (r: Result<usize, FsError>, chunks: seq<seq<byte>>)
    requires v.WellFormed()
    ensures (r, Flatten(chunks)) == ReadPathOutcome(v, path)
    ensures SectorChunks(chunks)
  {
    var found := ResolvePath(v, path);
    if found.Err? {
      return Err(found.error), [];
    }
    r, chunks := StreamFile(v, found.value);
  }

  ghost function ListOutcome(v: Volume, path: Path, keep: Visitor): (Result<(), FsError>, seq<DirEntry>)
    requires v.WellFormed()
  {
    if Components(path) == [] then VisitOutcome(v, v.root, keep)
    else match ResolveOutcome(v, path)
         case Err(e) => (Err(e), [])
         case Ok(entry) =>
           if !entry.IsDirectory() then (Err(NotDirectory), []) else VisitOutcome(v, entry.firstCluster, keep)
  }

  /** `list_dir`. */
  method ListDir(v: Volume, path: Path, keep: Visitor) returns (r: Result<(), FsError>, seen: seq<DirEntry>)
    requires v.WellFormed()
    ensures (r, seen) == ListOutcome(v, path, keep)
  {
    AllSlashesHasNoComponents(path);
    hide VisitOutcome, ResolveOutcome, Components;
    var cluster := v.root;
    if !AllSlashes(path) {
      var found := ResolvePath(v, path);
      if found.Err? {
        return Err(found.error), [];
      }
      if !found.value.IsDirectory() {
        return Err(NotDirectory), [];
      }
      cluster := found.value.firstCluster;
    }
    r, seen := VisitDirectory(v, cluster, keep);
  }

  /** What a path names decides between reading, listing and the errors of doing the wrong one. */
  lemma FilesAndDirectoriesApart(v: Volume, path: Path, keep: Visitor)
    requires v.WellFormed()
    ensures Components(path) == [] ==>
              && ReadPathOutcome(v, path) == (Err(NotFound), [])
              && ListOutcome(v, path, keep) == VisitOutcome(v, v.root, keep)
    ensures Components(path) != [] ==>
              var found := Descend(v, v.root, Components(path));
              && (found.Err? ==>
                  && ReadPathOutcome(v, path) == (Err(found.error), [])
                  && ListOutcome(v, path, keep) == (Err(found.error), []))
              && (found.Ok? && found.value.attributes / 16 % 2 == 1 ==>
                  && ReadPathOutcome(v, path) == (Err(IsDirectory), [])
                  && ListOutcome(v, path, keep) == VisitOutcome(v, found.value.firstCluster, keep))
              && (found.Ok? && found.value.attributes / 16 % 2 == 0 ==>
                  && ReadPathOutcome(v, path) == ReadOutcome(v, found.value.firstCluster, found.value.size)
                  && ListOutcome(v, path, keep) == (Err(NotDirectory), []))
  {
    hide Components, Descend, VisitOutcome, ReadOutcome;
    if Components(path) != [] && Descend(v, v.root, Components(path)).Ok? {
      DirectoryBit(Descend(v, v.root, Components(path)).value);
    }
    hide DirEntry.IsDirectory;
  }

  // ---------- from the image to the bytes of a file ----------

  /** Entry number i is the first with the name. */
  ghost predicate FirstNamed(entries: seq<DirEntry>, i: nat, name: seq<byte>) {
    && i < |entries| && SameName(entries[i].name, name)
    && forall j :: 0 <= j < i ==> !SameName(entries[j].name, name)
  }

  /** The clusters of a directory, as far as `s` goes, list `entry` as the first of that name. */
  ghost predicate ListedIn(v: Volume, s: seq<u32>, name: seq<byte>, entry: DirEntry)
    requires v.WellFormed()
  {
    && s != [] && |s| <= v.clusterCount + 1 && IsChain(v, s) && AllValid(v, s)
    && var entries := Entries(ChainRecords(v, s));
       exists i :: 0 <= i < |entries| && FirstNamed(entries, i, name) && entries[i] == entry
  }

  /** Starting at a directory, each name is listed in turn, all but the last as a directory. */
  ghost predicate Leads(v: Volume, directory: u32, names: seq<seq<byte>>, entry: DirEntry)
    requires v.WellFormed()
    decreases |names|
  {
    names != [] && !IsDots(names[0])
    && if |names| == 1 then exists s: seq<u32> :: s != [] && s[0] == directory && ListedIn(v, s, names[0], entry)
       else exists s: seq<u32>, step ::
              && s != [] && s[0] == directory && ListedIn(v, s, names[0], step)
              && step.attributes / 16 % 2 == 1 && Leads(v, step.firstCluster, names[1..], entry)
  }

  lemma ListedIsFound(v: Volume, s: seq<u32>, name: seq<byte>, entry: DirEntry)
    requires v.WellFormed() && ListedIn(v, s, name, entry)
    ensures FindOutcome(v, s[0], name) == Ok(entry)
  {
    hide Volume.WellFormed, IsChain, Entries, ChainRecords, FirstMatch, FindOutcome;
    var entries := Entries(ChainRecords(v, s));
    var i :| 0 <= i < |entries| && FirstNamed(entries, i, name) && entries[i] == entry;
    FirstMatchAt(entries, i, name);
    EarlyMatchHidesTheRest(v, s, name);
  }

  lemma {:induction false} LeadingResolves(v: Volume, directory: u32, names: seq<seq<byte>>, entry: DirEntry)
    requires v.WellFormed() && Leads(v, directory, names, entry)
    ensures Descend(v, directory, names) == Ok(entry)
    decreases |names|
  {
    hide Volume.WellFormed, ListedIn, FindOutcome;
    if |names| == 1 {
      var s: seq<u32> :| s != [] && s[0] == directory && ListedIn(v, s, names[0], entry);
      ListedIsFound(v, s, names[0], entry);
    } else {
      var s: seq<u32>, step :| s != [] && s[0] == directory && ListedIn(v, s, names[0], step)
        && step.attributes / 16 % 2 == 1 && Leads(v, step.firstCluster, names[1..], entry);
      ListedIsFound(v, s, names[0], step);
      DirectoryBit(step);
      LeadingResolves(v, step.firstCluster, names[1..], entry);
    }
  }

  /**
   * End to end: if the directories of a volume lead along the components of a path to a file, and the FAT holds a
   * chain long enough for it, then reading the path delivers exactly the first `size` bytes of that chain.
   */
  lemma FileIsDelivered(v: Volume, path: Path, entry: DirEntry, s: seq<u32>)
    requires v.WellFormed() && Leads(v, v.root, Components(path), entry)
    requires entry.attributes / 16 % 2 == 0 && 0 < entry.size
    requires s != [] && s[0] == entry.firstCluster && IsChain(v, s)
    requires |s| == ClustersNeeded(v, entry.size) <= v.clusterCount + 1
    ensures AllValid(v, s) && entry.size <= |ChainData(v, s)|
    ensures ReadPathOutcome(v, path) == (Ok(entry.size), ChainData(v, s)[..entry.size])
  {
    hide Volume.WellFormed, ListedIn, IsChain, Components, Descend, ReadOutcome, ReadPathOutcome, ClustersNeeded;
    LeadingResolves(v, v.root, Components(path), entry);
    ReadIsChainPrefix(v, s, entry.size);
    FilesAndDirectoriesApart(v, path, ShowAll());
  }

  lemma FindNeverFailsOnDevice(v: Volume, cluster: u32, name: seq<byte>)
    requires v.WellFormed()
    ensures FindOutcome(v, cluster, name).Err? ==> !FindOutcome(v, cluster, name).error.Device?
  {
    if v.IsValidCluster(cluster) {
      EndingCases(v, cluster);
    }
  }

  lemma {:induction false} DescendNeverFailsOnDevice(v: Volume, directory: u32, names: seq<seq<byte>>)
    requires v.WellFormed() && names != []
    ensures Descend(v, directory, names).Err? ==> !Descend(v, directory, names).error.Device?
    decreases |names|
  {
    FindNeverFailsOnDevice(v, directory, names[0]);
    hide FindOutcome;
    var found := FindOutcome(v, directory, names[0]);
    if found.Ok? && |names| > 1 {
      DescendNeverFailsOnDevice(v, found.value.firstCluster, names[1..]);
    }
  }

  /** Once `mount` has accepted a disk, no operation on any path reports a device error. */
  lemma MountedNeverFailsOnDevice(disk: Storage.Disk, path: Path, keep: Visitor)
    requires Mount(disk).Ok?
    ensures var v := Mount(disk).value;
            && v.WellFormed()
            && (ReadPathOutcome(v, path).0.Err? ==> !ReadPathOutcome(v, path).0.error.Device?)
            && (ListOutcome(v, path, keep).0.Err? ==> !ListOutcome(v, path, keep).0.error.Device?)
  {
    MountedIsWellFormed(disk);
    var v := Mount(disk).value;
    hide Descend, ReadOutcome, VisitOutcome, Mount;
    if Components(path) != [] {
      DescendNeverFailsOnDevice(v, v.root, Components(path));
    }
    var found := ResolveOutcome(v, path);
    if found.Ok? {
      ReadNeverFailsOnDevice(v, found.value.firstCluster, found.value.size);
      VisitNeverFailsOnDevice(v, found.value.firstCluster, keep);
    }
    VisitNeverFailsOnDevice(v, v.root, keep);
  }
}
