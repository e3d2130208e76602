/** Following next-cluster hops: prefixes, dead ends and cycles, for any hop function. */
module ClusterWalk {
  import opened Machine
  import opened Fat32

  datatype Hop = Next(cluster: u32) | EndOfChain | Broken(error: FsError)

  type Hops = u32 -> Hop

  /** The first `n` clusters reached from `cluster`; fewer if the walk stops before. */
  function Walk(f: Hops, cluster: u32, n: nat): (s: seq<u32>)
    ensures |s| <= n && (0 < n ==> s != [] && s[0] == cluster)
    decreases n
  {
    if n == 0 then []
    else [cluster] + match f(cluster)
                     case Next(d) => Walk(f, d, n - 1)
                     case _ => []
  }

  /** A full walk of length n grows by one hop from its last cluster. */
  lemma {:induction false} WalkGrows(f: Hops, cluster: u32, n: nat)
    requires 1 <= n && |Walk(f, cluster, n)| == n
    ensures Walk(f, cluster, n + 1) == Walk(f, cluster, n) +
              match f(Last(Walk(f, cluster, n)))
              case Next(d) => [d]
              case _ => []
    decreases n
  {
    if n == 1 {
      assert Walk(f, cluster, 1) == [cluster];
      var h := f(cluster);
      if h.Next? {
        assert Walk(f, h.cluster, 1) == [h.cluster];
      }
    } else {
      var d := f(cluster).cluster;
      WalkGrows(f, d, n - 1);
      assert Last(Walk(f, cluster, n)) == Last(Walk(f, d, n - 1));
    }
  }

  /** A walk that falls short of n stopped at its last cluster ... */
  lemma {:induction false} ShortWalkStops(f: Hops, cluster: u32, n: nat)
    requires |Walk(f, cluster, n)| < n
    ensures !f(Last(Walk(f, cluster, n))).Next?
    decreases n
  {
    var h := f(cluster);
    if h.Next? {
      ShortWalkStops(f, h.cluster, n - 1);
      var t := Walk(f, h.cluster, n - 1);
      assert Last([cluster] + t) == Last(t);
    }
  }

  /** ... and asking for more gives no more. */
  lemma {:induction false} ShortWalkIsWhole(f: Hops, cluster: u32, n: nat, m: nat)
    requires n <= m && |Walk(f, cluster, n)| < n
    ensures Walk(f, cluster, m) == Walk(f, cluster, n)
    decreases n
  {
    var h := f(cluster);
    if h.Next? {
      ShortWalkIsWhole(f, h.cluster, n - 1, m - 1);
    }
  }

  /** A property kept by every hop holds all along a walk. */
  lemma {:induction false} WalkKeeps(f: Hops, cluster: u32, n: nat, good: u32 -> bool)
    requires good(cluster)
    requires forall c: u32 :: good(c) && f(c).Next? ==> good(f(c).cluster)
    ensures forall i :: 0 <= i < |Walk(f, cluster, n)| ==> good(Walk(f, cluster, n)[i])
    decreases n
  {
    if n > 0 && f(cluster).Next? {
      WalkKeeps(f, f(cluster).cluster, n - 1, good);
    }
  }

  /** A shorter request yields a prefix of a longer one. */
  lemma {:induction false} WalkPrefix(f: Hops, cluster: u32, m: nat, n: nat)
    requires m <= n
    ensures Walk(f, cluster, m) == Walk(f, cluster, n)[..Min(m, |Walk(f, cluster, n)|)]
    decreases m
  {
    if m == 0 {
    } else {
      match f(cluster)
      case Next(d) =>
        WalkPrefix(f, d, m - 1, n - 1);
        ConsPrefix(cluster, Walk(f, d, n - 1), m - 1);
      case _ =>
        assert Walk(f, cluster, n) == [cluster];
    }
  }

  lemma ConsPrefix(c: u32, t: seq<u32>, m: nat)
    ensures [c] + t[..Min(m, |t|)] == ([c] + t)[..Min(m + 1, |[c] + t|)]
  {
  }

  lemma {:induction false} WalkHops(f: Hops, cluster: u32, n: nat, i: nat)
    requires i + 1 < |Walk(f, cluster, n)|
    ensures f(Walk(f, cluster, n)[i]) == Next(Walk(f, cluster, n)[i + 1])
    decreases n
  {
    var d := f(cluster).cluster;
    if i == 0 {
    } else {
      WalkHops(f, d, n - 1, i - 1);
    }
  }

  // ---------- cycles ----------

  ghost predicate Revisits(s: seq<u32>) {
    exists i, j :: 0 <= i < j < |s| && s[i] == s[j]
  }

  function Elements(s: seq<u32>): set<u32> {
    set x | x in s
  }

  lemma {:induction false} DistinctElements(s: seq<u32>)
    requires !Revisits(s)
    ensures |Elements(s)| == |s|
  {
    if s == [] {
    } else {
      var t := s[..|s| - 1];
      var x := Last(s);
      assert forall i :: 0 <= i < |t| ==> t[i] == s[i] != x;
      DistinctElements(t);
      assert s == t + [x];
      assert Elements(s) == Elements(t) + {x};
    }
  }

  lemma {:induction false} BoundedSetIsSmall(s: set<u32>, n: nat)
    requires forall x :: x in s ==> 2 <= x < n + 2
    ensures |s| <= n
    decreases n
  {
    if n == 0 {
      assert s == {};
    } else {
      var top := n + 1;
      BoundedSetIsSmall(s - {top}, n - 1);
    }
  }

  /** Once s[i] == s[j], the walk stays inside s[..j] for ever. */
  lemma {:induction false} CycleIsClosed(f: Hops, cluster: u32, m: nat, i: nat, j: nat, n: nat)
    requires i < j < |Walk(f, cluster, m)| && Walk(f, cluster, m)[i] == Walk(f, cluster, m)[j]
    requires 1 <= n
    ensures |Walk(f, cluster, n)| == n
    ensures Last(Walk(f, cluster, n)) in Walk(f, cluster, m)[..j]
    decreases n
  {
    hide Walk;
    var s := Walk(f, cluster, m);
    if n == 1 {
      assert s[..j][0] == cluster;
    } else {
      CycleIsClosed(f, cluster, m, i, j, n - 1);
      var before := Walk(f, cluster, n - 1);
      var a :| 0 <= a < j && s[a] == Last(before);
      WalkHops(f, cluster, m, a);
      WalkGrows(f, cluster, n - 1);
      assert Walk(f, cluster, n) == before + [s[a + 1]];
      var b := if a + 1 < j then a + 1 else i;
      assert s[a + 1] == s[..j][b];
    }
  }

  /** A walk that revisits a cluster never stops. */
  lemma RevisitingWalkNeverEnds(f: Hops, cluster: u32, m: nat, n: nat)
    requires Revisits(Walk(f, cluster, m))
    ensures |Walk(f, cluster, n)| == n
  {
    var s := Walk(f, cluster, m);
    var i, j :| 0 <= i < j < |s| && s[i] == s[j];
    if n > 0 {
      CycleIsClosed(f, cluster, m, i, j, n);
    }
  }
}
