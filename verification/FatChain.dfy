/** Cluster chains: what following the FAT reaches, why it must repeat, and the bytes it holds. */
module FatChain {
  import opened Machine
  import opened Storage
  import opened Fat32
  import opened ClusterWalk

  /** What both walkers learn from the FAT once a cluster is used up. */
  function HopFrom(v: Volume, cluster: u32): Hop {
    match NextCluster(v, cluster)
    case Err(e) => Broken(e)
    case Ok(next) =>
      if next >= FAT32_EOC then EndOfChain
      else match CheckedNextCluster(v, next)
           case Err(e) => Broken(e)
           case Ok(c) => Next(c)
  }

  function FatHops(v: Volume): Hops {
    (c: u32) => HopFrom(v, c)
  }

  /** The first `n` clusters of the chain that starts at `cluster`; fewer if it stops before. */
  function Chain(v: Volume, cluster: u32, n: nat): seq<u32> {
    Walk(FatHops(v), cluster, n)
  }

  lemma HopIsValid(v: Volume, cluster: u32)
    requires v.WellFormed() && v.IsValidCluster(cluster)
    ensures var h := HopFrom(v, cluster);
            && (h.Next? ==> v.IsValidCluster(h.cluster))
            && (h.Broken? ==> h.error == CorruptFat)
  {
    NextClusterIsFatWord(v, cluster);
  }

  ghost predicate AllValid(v: Volume, s: seq<u32>) {
    forall i :: 0 <= i < |s| ==> v.IsValidCluster(s[i])
  }

  lemma ChainIsValid(v: Volume, cluster: u32, n: nat)
    requires v.WellFormed() && v.IsValidCluster(cluster)
    ensures AllValid(v, Chain(v, cluster, n))
  {
    var good := (c: u32) => v.IsValidCluster(c);
    forall c: u32 | good(c) && FatHops(v)(c).Next?
      ensures good(FatHops(v)(c).cluster)
    {
      HopIsValid(v, c);
    }
    WalkKeeps(FatHops(v), cluster, n, good);
  }

  /** After `round` hops from `first` a walker has used up `path` and stands at `cluster`. */
  ghost predicate AtRound(v: Volume, first: u32, round: nat, path: seq<u32>, cluster: u32) {
    && |path| == round
    && path == Chain(v, first, round)
    && Chain(v, first, round + 1) == path + [cluster]
    && AllValid(v, path) && v.IsValidCluster(cluster)
  }

  lemma FirstRound(v: Volume, first: u32)
    requires v.IsValidCluster(first)
    ensures AtRound(v, first, 0, [], first)
  {
    assert Chain(v, first, 1) == [first];
  }

  lemma NextRound(v: Volume, first: u32, round: nat, path: seq<u32>, cluster: u32)
    requires v.WellFormed() && AtRound(v, first, round, path, cluster)
    requires HopFrom(v, cluster).Next?
    ensures AtRound(v, first, round + 1, path + [cluster], HopFrom(v, cluster).cluster)
  {
    HopIsValid(v, cluster);
    hide HopFrom, Walk;
    WalkGrows(FatHops(v), first, round + 1);
  }

  // ---------- chains as the on-disk format defines them ----------

  // The marks of the FAT32 specification.

  ghost predicate IsEndMark(word: u32) {
    0x0fff_fff8 <= word
  }

  ghost predicate IsBadMark(word: u32) {
    word == 0x0fff_fff7
  }

  /** The FAT entry of `c` names `d`, which is no mark. */
  ghost predicate Linked(v: Volume, c: u32, d: u32)
    requires v.WellFormed()
  {
    HasFatEntry(v, c) && FatWord(v, c) == d && !IsBadMark(d) && !IsEndMark(d)
  }

  /** The FAT entry of `c` ends its chain. */
  ghost predicate EndsChain(v: Volume, c: u32)
    requires v.WellFormed()
  {
    HasFatEntry(v, c) && IsEndMark(FatWord(v, c))
  }

  /** The FAT has no entry for `c`, or the entry is the bad mark or neither an end mark nor a cluster. */
  ghost predicate BreaksChain(v: Volume, c: u32)
    requires v.WellFormed()
  {
    || !HasFatEntry(v, c) || IsBadMark(FatWord(v, c))
    || (!IsEndMark(FatWord(v, c)) && !v.IsValidCluster(FatWord(v, c)))
  }

  /** A list of data clusters, each naming the next in its own FAT entry. */
  ghost predicate IsChain(v: Volume, s: seq<u32>)
    requires v.WellFormed()
  {
    s == [] || (v.IsValidCluster(s[0]) && (|s| > 1 ==> Linked(v, s[0], s[1])) && IsChain(v, s[1..]))
  }

  lemma HopIsFatLink(v: Volume, c: u32, d: u32)
    requires v.WellFormed() && v.IsValidCluster(c) && v.IsValidCluster(d)
    ensures HopFrom(v, c) == Next(d) <==> Linked(v, c, d)
  {
    NextClusterIsFatWord(v, c);
  }

  lemma ChainCons(v: Volume, c: u32, t: seq<u32>)
    requires v.WellFormed() && v.IsValidCluster(c) && IsChain(v, t)
    requires t != [] ==> Linked(v, c, t[0])
    ensures IsChain(v, [c] + t)
  {
    assert ([c] + t)[1..] == t;
  }

  lemma NoChain(v: Volume)
    requires v.WellFormed()
    ensures IsChain(v, [])
  {
  }

  lemma ChainUnfolds(v: Volume, cluster: u32, n: nat)
    ensures Chain(v, cluster, 0) == []
    ensures HopFrom(v, cluster).Next? ==>
              Chain(v, cluster, n + 1) == [cluster] + Chain(v, HopFrom(v, cluster).cluster, n)
    ensures !HopFrom(v, cluster).Next? ==> Chain(v, cluster, n + 1) == [cluster]
    ensures Chain(v, cluster, n) != [] ==> Chain(v, cluster, n)[0] == cluster
  {
    hide HopFrom;
  }

  /** Following the code's hops gives a chain of the on-disk format ... */
  lemma {:induction false} ChainIsOnDisk(v: Volume, cluster: u32, n: nat)
    requires v.WellFormed() && v.IsValidCluster(cluster)
    ensures IsChain(v, Chain(v, cluster, n))
    decreases n
  {
    hide HopFrom, Linked, IsChain, Chain, Volume.WellFormed, Volume.IsValidCluster;
    NoChain(v);
    if n == 0 {
      ChainUnfolds(v, cluster, 0);
    } else {
      ChainUnfolds(v, cluster, n - 1);
      HopIsValid(v, cluster);
      var h := HopFrom(v, cluster);
      if h.Next? {
        var rest := Chain(v, h.cluster, n - 1);
        ChainIsOnDisk(v, h.cluster, n - 1);
        HopIsFatLink(v, cluster, h.cluster);
        ChainUnfolds(v, h.cluster, n - 1);
        ChainCons(v, cluster, rest);
      } else {
        ChainCons(v, cluster, []);
        assert [cluster] + [] == [cluster];
      }
    }
  }

  /** ... and every chain of the on-disk format is the one the code follows. */
  lemma {:induction false} OnDiskChainIsFollowed(v: Volume, s: seq<u32>)
    requires v.WellFormed() && s != [] && IsChain(v, s)
    ensures Chain(v, s[0], |s|) == s
    decreases |s|
  {
    if |s| <= 1 {
    } else {
      HopIsFatLink(v, s[0], s[1]);
      OnDiskChainIsFollowed(v, s[1..]);
    }
  }

  // ---------- cycles ----------

  /** Pigeonhole: more hops than clusters must revisit one. */
  lemma LongChainRevisits(v: Volume, cluster: u32, n: nat)
    requires v.WellFormed() && v.IsValidCluster(cluster)
    requires v.clusterCount < |Chain(v, cluster, n)|
    ensures Revisits(Chain(v, cluster, n))
  {
    var s := Chain(v, cluster, n);
    ChainIsValid(v, cluster, n);
    BoundedSetIsSmall(Elements(s), v.clusterCount);
    if !Revisits(s) {
      DistinctElements(s);
    }
  }

  // ---------- the bytes of a chain ----------

  /** The bytes of one data cluster, addressed straight in the disk image. */
  function ClusterData(v: Volume, cluster: u32): (d: seq<byte>)
    requires v.WellFormed() && v.IsValidCluster(cluster)
    ensures |d| == v.ClusterBytes()
  {
    ClusterInDisk(v, cluster);
    var start := (v.firstData + Times(cluster - 2, v.sectorsPerCluster)) * SECTOR_SIZE;
    v.disk[start..start + v.ClusterBytes()]
  }

  lemma ClusterInDisk(v: Volume, cluster: u32)
    requires v.WellFormed() && v.IsValidCluster(cluster)
    ensures (v.firstData + Times(cluster - 2, v.sectorsPerCluster)) * SECTOR_SIZE + v.ClusterBytes() <= |v.disk|
  {
    TimesStep(cluster - 2, v.clusterCount, v.sectorsPerCluster);
  }

  function ChainData(v: Volume, s: seq<u32>): (d: seq<byte>)
    requires v.WellFormed() && AllValid(v, s)
    ensures |d| == Times(|s|, v.ClusterBytes())
  {
    if s == [] then []
    else
      var front := s[..|s| - 1];
      ChainData(v, front) + ClusterData(v, Last(s))
  }

  /** Reading sector `index` of a cluster yields its part of the cluster's bytes, and cannot fail. */
  lemma SectorOfCluster(v: Volume, cluster: u32, index: u32)
    requires v.WellFormed() && v.IsValidCluster(cluster) && index < v.sectorsPerCluster
    ensures ClusterToSector(v, cluster, index).Ok?
    ensures SectorAt(v.disk, ClusterToSector(v, cluster, index).value).Ok?
    ensures SectorAt(v.disk, ClusterToSector(v, cluster, index).value).value
         == ClusterData(v, cluster)[index * SECTOR_SIZE..(index + 1) * SECTOR_SIZE]
  {
    ClusterSectorInData(v, cluster, index);
    ClusterInDisk(v, cluster);
    var start := (v.firstData + Times(cluster - 2, v.sectorsPerCluster)) * SECTOR_SIZE;
    SliceOfSlice(v.disk, start, v.ClusterBytes(), index * SECTOR_SIZE, (index + 1) * SECTOR_SIZE);
  }

  /** An on-disk chain of `n` clusters starts at `first`. */
  ghost predicate HasChain(v: Volume, first: u32, n: nat)
    requires v.WellFormed()
  {
    exists s: seq<u32> :: |s| == n > 0 && s[0] == first && IsChain(v, s)
  }

  lemma HasChainIsLength(v: Volume, first: u32, n: nat)
    requires v.WellFormed() && v.IsValidCluster(first) && 0 < n
    ensures HasChain(v, first, n) <==> |Chain(v, first, n)| == n
  {
    if |Chain(v, first, n)| == n {
      ChainIsOnDisk(v, first, n);
    }
    if HasChain(v, first, n) {
      var s: seq<u32> :| |s| == n > 0 && s[0] == first && IsChain(v, s);
      OnDiskChainIsFollowed(v, s);
    }
  }

  /** The ways a chain can stop at a data cluster, as the on-disk format marks them. */
  lemma StopIsMarked(v: Volume, c: u32)
    requires v.WellFormed() && v.IsValidCluster(c)
    ensures HopFrom(v, c).EndOfChain? <==> EndsChain(v, c)
    ensures HopFrom(v, c).Broken? <==> BreaksChain(v, c)
  {
    NextClusterIsFatWord(v, c);
  }

  /** The clusters lie one after another behind the FATs, the first being number 2. */
  ghost predicate ClusterStartsAt(b: Bpb, cluster: u32, sector: nat) {
    2 <= cluster && sector == b.reserved + b.fatCount * b.sectorsPerFat + (cluster - 2) * b.sectorsPerCluster
  }

  lemma ClusterStart(disk: Disk, b: Bpb, v: Volume, cluster: u32, sector: nat)
    requires Describes(b, disk, v) && ClusterStartsAt(b, cluster, sector)
    ensures sector == v.firstData + Times(cluster - 2, v.sectorsPerCluster)
  {
    TimesIsProduct(cluster - 2, v.sectorsPerCluster);
  }

  /** In terms of the image alone: the bytes of a cluster. */
  lemma ClusterOfImage(disk: Disk, b: Bpb, cluster: u32, sector: nat)
    requires Mount(disk).Ok? && Mount(disk).value.IsValidCluster(cluster)
    requires 512 <= |disk| && b == ParseBpb(disk[..512]) && ClusterStartsAt(b, cluster, sector)
    ensures Mount(disk).value.WellFormed()
    ensures 512 * sector + 512 * b.sectorsPerCluster <= |disk|
    ensures ClusterData(Mount(disk).value, cluster) == disk[512 * sector..512 * sector + 512 * b.sectorsPerCluster]
  {
    hide Mount, ParseBpb, Volume.WellFormed, ClusterStartsAt, Times;
    MountedIsWellFormed(disk);
    var v := Mount(disk).value;
    ClusterStart(disk, b, v, cluster, sector);
    ClusterInDisk(v, cluster);
    hide Overhead, Declares;
  }
}
