/** Streaming a file: the cluster and sector loops of `read_file` against the bytes of its chain. */
module FileReader {
  import opened Machine
  import opened Storage
  import opened Fat32
  import opened ClusterWalk
  import opened FatChain
  import opened ShortNames

  /** How many clusters hold `size` bytes. */
  function ClustersNeeded(v: Volume, size: nat): nat
    requires 0 < v.sectorsPerCluster
  {
    Quotient(size + v.ClusterBytes() - 1, v.ClusterBytes())
  }

  /** That is the ceiling of size / cluster bytes. */
  lemma ClustersNeededIsCeiling(v: Volume, size: nat)
    requires 0 < v.sectorsPerCluster
    ensures ClustersNeeded(v, size) == (size + v.ClusterBytes() - 1) / v.ClusterBytes()
  {
    QuotientIsDivision(size + v.ClusterBytes() - 1, v.ClusterBytes());
  }

  /**
   * What reading `size` bytes from `first` comes to: the result, and every byte handed to the visitor.
   * At most cluster_count + 1 clusters are read, the FAT is asked at most that often.
   */
  ghost function ReadOutcome(v: Volume, first: u32, size: u32): (Result<usize, FsError>, seq<byte>)
    requires v.WellFormed()
  {
    if size == 0 then (Ok(0), [])
    else if !v.IsValidCluster(first) then (Err(InvalidCluster), [])
    else
      var limit := v.clusterCount + 1;
      var need := ClustersNeeded(v, size);
      var reach := Chain(v, first, if need <= limit then need else limit + 1);
      ChainIsValid(v, first, if need <= limit then need else limit + 1);
      NeedBounds(v, size);
      if need <= limit && |reach| == need then (Ok(size), ChainData(v, reach)[..size])
      else if |reach| == limit + 1 then (Err(DirectoryLoop), ChainData(v, reach[..limit]))
      else match HopFrom(v, Last(reach))
           case Broken(e) => (Err(e), ChainData(v, reach))
           case _ => (Err(TruncatedFile), ChainData(v, reach))
  }

  lemma NeedBounds(v: Volume, size: nat)
    requires 0 < v.sectorsPerCluster
    ensures size <= Times(ClustersNeeded(v, size), v.ClusterBytes()) < size + v.ClusterBytes()
  {
    QuotientBounds(size + v.ClusterBytes() - 1, v.ClusterBytes());
  }

  lemma NeedAtMost(v: Volume, size: nat, k: nat)
    requires 0 < v.sectorsPerCluster
    ensures ClustersNeeded(v, size) <= k <==> size <= Times(k, v.ClusterBytes())
  {
    QuotientAtLeast(size + v.ClusterBytes() - 1, v.ClusterBytes(), k + 1);
  }

  // ---------- the three ways out of the loop ----------

  lemma ReadEnds(v: Volume, first: u32, size: u32, round: nat, path: seq<u32>, cluster: u32)
    requires v.WellFormed() && v.IsValidCluster(first)
    requires round <= v.clusterCount && AtRound(v, first, round, path, cluster)
    requires Times(round, v.ClusterBytes()) < size <= Times(round + 1, v.ClusterBytes())
    ensures AllValid(v, path + [cluster])
    ensures ReadOutcome(v, first, size) == (Ok(size), ChainData(v, path + [cluster])[..size])
  {
    hide HopFrom, Walk, Quotient, ClusterData, ChainData;
    NeedAtMost(v, size, round);
    NeedAtMost(v, size, round + 1);
  }

  lemma ReadStops(v: Volume, first: u32, size: u32, round: nat, path: seq<u32>, cluster: u32)
    requires v.WellFormed() && v.IsValidCluster(first)
    requires round <= v.clusterCount && AtRound(v, first, round, path, cluster)
    requires Times(round + 1, v.ClusterBytes()) < size
    requires !HopFrom(v, cluster).Next?
    ensures AllValid(v, path + [cluster])
    ensures var h := HopFrom(v, cluster);
            ReadOutcome(v, first, size) == (Err(if h.Broken? then h.error else TruncatedFile),
                                            ChainData(v, path + [cluster]))
  {
    hide HopFrom, Walk, Quotient, Times, ClusterData, ChainData;
    NeedAtMost(v, size, round + 1);
    var limit := v.clusterCount + 1;
    var need := ClustersNeeded(v, size);
    var n := if need <= limit then need else limit + 1;
    WalkGrows(FatHops(v), first, round + 1);
    assert Chain(v, first, round + 2) == Chain(v, first, round + 1);
    ShortWalkIsWhole(FatHops(v), first, round + 2, n);
  }

  lemma ReadLoops(v: Volume, first: u32, size: u32, path: seq<u32>, cluster: u32)
    requires v.WellFormed() && v.IsValidCluster(first)
    requires AtRound(v, first, v.clusterCount + 1, path, cluster)
    requires Times(v.clusterCount + 1, v.ClusterBytes()) < size
    ensures AllValid(v, path)
    ensures ReadOutcome(v, first, size) == (Err(DirectoryLoop), ChainData(v, path))
  {
    hide HopFrom, Walk, Quotient, Times, ClusterData, ChainData;
    NeedAtMost(v, size, v.clusterCount + 1);
  }

  // ---------- chunks ----------

  function Flatten(chunks: seq<seq<byte>>): seq<byte> {
    if chunks == [] then [] else Flatten(chunks[..|chunks| - 1]) + Last(chunks)
  }

  lemma FlattenAppend(chunks: seq<seq<byte>>, chunk: seq<byte>)
    ensures Flatten(chunks + [chunk]) == Flatten(chunks) + chunk
  {
    assert (chunks + [chunk])[..|chunks|] == chunks;
  }

  /** Whole sectors, except that the last chunk may be shorter; never an empty chunk. */
  ghost predicate SectorChunks(chunks: seq<seq<byte>>) {
    && (forall i :: 0 <= i < |chunks| ==> 0 < |chunks[i]| <= SECTOR_SIZE)
    && (forall i :: 0 <= i < |chunks| - 1 ==> |chunks[i]| == SECTOR_SIZE)
  }

  ghost predicate WholeSectors(chunks: seq<seq<byte>>) {
    forall i :: 0 <= i < |chunks| ==> |chunks[i]| == SECTOR_SIZE
  }

  lemma WholeIsChunked(chunks: seq<seq<byte>>)
    requires WholeSectors(chunks)
    ensures SectorChunks(chunks)
  {
  }

  lemma OneMoreChunk(chunks: seq<seq<byte>>, chunk: seq<byte>)
    requires WholeSectors(chunks) && 0 < |chunk| <= SECTOR_SIZE
    ensures SectorChunks(chunks + [chunk])
    ensures |chunk| == SECTOR_SIZE ==> WholeSectors(chunks + [chunk])
  {
  }

  lemma PrefixGrows(data: seq<byte>, at: nat, count: nat)
    requires at + SECTOR_SIZE <= |data| && count <= SECTOR_SIZE
    ensures data[..at] + data[at..at + SECTOR_SIZE][..count] == data[..at + count]
  {
  }

  /** The inner loop of `read_file`: hand out one cluster, stopping early when nothing remains. */
  method StreamCluster(v: Volume, cluster: u32, before: seq<seq<byte>>, budget: usize, sector: array<byte>)
    returns (remaining: usize, chunks: seq<seq<byte>>)
    requires v.WellFormed() && v.IsValidCluster(cluster) && 0 < budget
    requires sector.Length == SECTOR_SIZE
    requires WholeSectors(before)
    modifies sector
    ensures remaining == budget - Min(budget, v.ClusterBytes())
    ensures Flatten(chunks) == Flatten(before) + ClusterData(v, cluster)[..Min(budget, v.ClusterBytes())]
    ensures SectorChunks(chunks)
    ensures remaining > 0 ==> WholeSectors(chunks)
  {
    hide ClusterData, Flatten, ClusterToSector, SectorAt, Volume.WellFormed;
    remaining := budget;
    chunks := before;
    var index: u32 := 0;
    ghost var data := ClusterData(v, cluster);
    assert data[..0] == [];
    WholeIsChunked(before);
    hide SectorChunks, WholeSectors;
    while index < v.sectorsPerCluster
      invariant index <= v.sectorsPerCluster
      invariant remaining == budget - Min(budget, index * SECTOR_SIZE)
      invariant Flatten(chunks) == Flatten(before) + data[..Min(budget, index * SECTOR_SIZE)]
      invariant SectorChunks(chunks)
      invariant remaining > 0 ==> WholeSectors(chunks)
    {
      if remaining == 0 {
        return;
      }
      SectorOfCluster(v, cluster, index);
      var lba := ClusterToSector(v, cluster, index);
      assert lba.Ok?; // so the source's early exit here is dead code
      var read := ReadSector(v.disk, lba.value, sector);
      assert read.Ok?; // likewise
      var count := Min(remaining, SECTOR_SIZE);
      var chunk := sector[..count];
      FlattenAppend(chunks, chunk);
      OneMoreChunk(chunks, chunk);
      PrefixGrows(data, index * SECTOR_SIZE, count);
      assert chunk == data[index * SECTOR_SIZE..index * SECTOR_SIZE + SECTOR_SIZE][..count];
      chunks := chunks + [chunk];
      remaining := remaining - count;
      index := index + 1;
    }
  }

  lemma ChainDataAppend(v: Volume, s: seq<u32>, c: u32)
    requires v.WellFormed() && AllValid(v, s) && v.IsValidCluster(c)
    ensures AllValid(v, s + [c]) && ChainData(v, s + [c]) == ChainData(v, s) + ClusterData(v, c)
    ensures Times(|s| + 1, v.ClusterBytes()) == Times(|s|, v.ClusterBytes()) + v.ClusterBytes()
  {
    assert (s + [c])[..|s|] == s;
  }

  lemma TakeThrough(s: seq<byte>, t: seq<byte>, n: nat)
    requires |s| <= n <= |s| + |t|
    ensures (s + t)[..n] == s + t[..n - |s|]
  {
  }

  /** The loop of `read_file` over the clusters of a nonempty file. */
  method StreamClusters(v: Volume, first: u32, size: u32)
    returns (r: Result<usize, FsError>, chunks: seq<seq<byte>>)
    requires v.WellFormed() && 0 < size && v.IsValidCluster(first)
    ensures (r, Flatten(chunks)) == ReadOutcome(v, first, size)
    ensures SectorChunks(chunks)
  {
    hide HopFrom, ClusterData, ReadOutcome, AtRound, Volume.WellFormed;
    var remaining: usize, cluster, round := size, first, 0;
    var sector := new byte[SECTOR_SIZE];
    chunks := [];
    ghost var path: seq<u32> := [];
    FirstRound(v, first);
    assert Flatten(chunks) == ChainData(v, path);
    assert Times(0, v.ClusterBytes()) == 0;
    hide Times, ChainData, Flatten;
    while round <= v.clusterCount
      invariant round <= v.clusterCount + 1 && |path| == round
      invariant AtRound(v, first, round, path, cluster)
      invariant v.IsValidCluster(cluster) && AllValid(v, path)
      invariant 0 < remaining == size - Times(round, v.ClusterBytes())
      invariant Flatten(chunks) == ChainData(v, path)
      invariant WholeSectors(chunks)
      decreases v.clusterCount + 1 - round
    {
      ChainDataAppend(v, path, cluster);
      ghost var soFar, data := ChainData(v, path), ClusterData(v, cluster);
      remaining, chunks := StreamCluster(v, cluster, chunks, remaining, sector);
      if remaining == 0 {
        ReadEnds(v, first, size, round, path, cluster);
        TakeThrough(soFar, data, size);
        return Ok(size), chunks;
      }
      assert data[..v.ClusterBytes()] == data;
      var hop := HopFrom(v, cluster);
      if !hop.Next? {
        ReadStops(v, first, size, round, path, cluster);
        return Err(if hop.Broken? then hop.error else TruncatedFile), chunks;
      }
      NextRound(v, first, round, path, cluster);
      HopIsValid(v, cluster);
      path := path + [cluster];
      cluster := hop.cluster;
      round := round + 1;
    }
    ReadLoops(v, first, size, path, cluster);
    WholeIsChunked(chunks);
    r := Err(DirectoryLoop);
  }

  /** `read_file` after path resolution. */
  method StreamFile(v: Volume, entry: DirEntry) returns (r: Result<usize, FsError>, chunks: seq<seq<byte>>)
    requires v.WellFormed()
    ensures (r, Flatten(chunks)) == if entry.IsDirectory() then (Err(IsDirectory), [])
                                    else ReadOutcome(v, entry.firstCluster, entry.size)
    ensures SectorChunks(chunks)
  {
    if entry.IsDirectory() {
      return Err(IsDirectory), [];
    }
    if entry.size == 0 {
      return Ok(0), [];
    }
    if !v.IsValidCluster(entry.firstCluster) {
      return Err(InvalidCluster), [];
    }
    r, chunks := StreamClusters(v, entry.firstCluster, entry.size);
  }

  // ---------- what reading promises ----------

  /** An empty file reads as nothing whatever its first cluster is; else that must be a data cluster. */
  lemma ReadWithoutChain(v: Volume, first: u32, size: u32)
    requires v.WellFormed()
    ensures ReadOutcome(v, first, 0) == (Ok(0), [])
    ensures 0 < size && !v.IsValidCluster(first) ==> ReadOutcome(v, first, size) == (Err(InvalidCluster), [])
  {
  }

  /** A nonempty read succeeds exactly when its clusters all exist and the guard lets it reach them. */
  lemma ReadSucceedsExactly(v: Volume, first: u32, size: u32)
    requires v.WellFormed() && 0 < size
    ensures ReadOutcome(v, first, size).0.Ok? <==>
            && ClustersNeeded(v, size) <= v.clusterCount + 1
            && HasChain(v, first, ClustersNeeded(v, size))
  {
    NeedAtMost(v, size, 0);
    if v.IsValidCluster(first) {
      HasChainIsLength(v, first, ClustersNeeded(v, size));
    }
  }

  /** A successful read is the first `size` bytes of the on-disk chain. */
  lemma ReadIsChainPrefix(v: Volume, s: seq<u32>, size: u32)
    requires v.WellFormed() && 0 < size && s != [] && IsChain(v, s)
    requires |s| == ClustersNeeded(v, size) <= v.clusterCount + 1
    ensures AllValid(v, s) && size <= |ChainData(v, s)|
    ensures ReadOutcome(v, s[0], size) == (Ok(size), ChainData(v, s)[..size])
  {
    OnDiskChainIsFollowed(v, s);
    ChainIsValid(v, s[0], |s|);
    NeedBounds(v, size);
  }

  /** A truncated or corrupt file has delivered exactly the whole clusters before the break. */
  lemma FailedReadDeliversWholeClusters(v: Volume, first: u32, size: u32) returns (s: seq<u32>)
    requires v.WellFormed()
    requires ReadOutcome(v, first, size).0 in {Err(TruncatedFile), Err(CorruptFat)}
    ensures s != [] && s[0] == first && IsChain(v, s) && AllValid(v, s)
    ensures |s| < ClustersNeeded(v, size)
    ensures ReadOutcome(v, first, size).1 == ChainData(v, s)
    ensures var mark := Last(s);
            if ReadOutcome(v, first, size).0.error == TruncatedFile
            then EndsChain(v, mark) else BreaksChain(v, mark)
  {
    hide HopFrom, Walk, Quotient, Times, ClusterData, IsChain, EndsChain, BreaksChain;
    var limit := v.clusterCount + 1;
    var need := ClustersNeeded(v, size);
    var n := if need <= limit then need else limit + 1;
    s := Chain(v, first, n);
    NeedAtMost(v, size, 0);
    ChainIsValid(v, first, n);
    ChainIsOnDisk(v, first, n);
    ShortWalkStops(FatHops(v), first, n);
    StopIsMarked(v, Last(s));
    HopIsValid(v, Last(s));
  }

  /** The guard fires exactly on files longer than cluster_count + 1 clusters whose chain revisits a cluster. */
  lemma ReadLoopExactly(v: Volume, first: u32, size: u32)
    requires v.WellFormed()
    ensures ReadOutcome(v, first, size).0 == Err(DirectoryLoop) <==>
            && v.IsValidCluster(first)
            && v.clusterCount + 1 < ClustersNeeded(v, size)
            && Revisits(Chain(v, first, v.clusterCount + 1))
    ensures ReadOutcome(v, first, size).0 == Err(DirectoryLoop) ==>
              var s := Chain(v, first, v.clusterCount + 1);
              |s| == v.clusterCount + 1 && AllValid(v, s) && ReadOutcome(v, first, size).1 == ChainData(v, s)
  {
    hide HopFrom, Walk, Quotient, Times, ClusterData, ChainData, Revisits;
    var limit := v.clusterCount + 1;
    NeedAtMost(v, size, 0);
    if v.IsValidCluster(first) && limit < ClustersNeeded(v, size) {
      if Revisits(Chain(v, first, limit)) {
        RevisitingWalkNeverEnds(FatHops(v), first, limit, limit + 1);
      }
      if |Chain(v, first, limit + 1)| == limit + 1 {
        WalkPrefix(FatHops(v), first, limit, limit + 1);
        ChainIsValid(v, first, limit);
        LongChainRevisits(v, first, limit);
      } else {
        ShortWalkStops(FatHops(v), first, limit + 1);
        ChainIsValid(v, first, limit + 1);
        HopIsValid(v, Last(Chain(v, first, limit + 1)));
      }
    } else if v.IsValidCluster(first) && 0 < size {
      ShortReadError(v, first, size);
    }
  }

  lemma ShortReadError(v: Volume, first: u32, size: u32)
    requires v.WellFormed() && v.IsValidCluster(first) && 0 < size
    requires ClustersNeeded(v, size) <= v.clusterCount + 1
    ensures ReadOutcome(v, first, size).0 in {Ok(size), Err(TruncatedFile), Err(CorruptFat)}
  {
    var need := ClustersNeeded(v, size);
    NeedAtMost(v, size, 0);
    ChainIsValid(v, first, need);
    HopIsValid(v, Last(Chain(v, first, need)));
  }

  /** Reading a file of a mounted volume never surfaces a device error. */
  lemma ReadNeverFailsOnDevice(v: Volume, first: u32, size: u32)
    requires v.WellFormed()
    ensures ReadOutcome(v, first, size).0.Err? ==>
              ReadOutcome(v, first, size).0.error in {InvalidCluster, CorruptFat, DirectoryLoop, TruncatedFile}
  {
    if v.IsValidCluster(first) && 0 < size {
      var limit := v.clusterCount + 1;
      var need := ClustersNeeded(v, size);
      var n := if need <= limit then need else limit + 1;
      NeedAtMost(v, size, 0);
      ChainIsValid(v, first, n);
      HopIsValid(v, Last(Chain(v, first, n)));
    }
  }
}
