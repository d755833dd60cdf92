/** The layout of a mounted FAT32 volume: where clusters live on the disk. */
module Geometry {

  const BAD_MARK := 0x0fff_fff7
  const EOF_MARK := 0x0fff_fff8

  /** The mount parameters kept for a volume; sector numbers are relative to `start` unless noted. */
  datatype Layout = Layout(
    start: nat,         // first sector of the partition, absolute
    reserved: nat,      // sectors before the first FAT
    numFats: nat,       // copies of the FAT
    fatSize: nat,       // sectors per copy
    firstData: nat,     // first sector of cluster 2
    perCluster: nat,    // sectors per cluster
    clusters: nat,      // number of data clusters
    total: nat,         // sectors in the partition
    fsinfo: nat         // the FSInfo sector
  ) {
    function Entries(): nat {
      fatSize * 128
    }

    /** Absolute sector of sector `n` of the first FAT. */
    function FatAt(n: int): int {
      start + reserved + n
    }

    /** Absolute sector of sector `n` of the second FAT. */
    function SecondAt(n: int): int {
      start + reserved + fatSize + n
    }

    function FatEnd(): int {
      start + reserved + fatSize
    }

    /** What mounting a FAT32 volume on a device of `size` sectors establishes. */
    ghost predicate Mounted(size: nat) {
      && 0 < reserved && 0 < numFats && 0 < fatSize && fsinfo < reserved
      && 1 <= perCluster <= 256
      && 65525 <= clusters && clusters + 1 < BAD_MARK && clusters + 2 <= Entries()
      && firstData == reserved + numFats * fatSize
      && firstData + clusters * perCluster <= total < 0x8000_0000
      && start + total <= size
    }

    /** The consequences of `Mounted` that the driver relies on, without its products. */
    ghost predicate Laid(size: nat) {
      && 0 < reserved && 0 < numFats && 0 < fatSize && fsinfo < reserved
      && 1 <= perCluster <= 256
      && 65525 <= clusters && clusters + 1 < BAD_MARK && clusters + 2 <= Entries()
      && 512 < firstData < total < 0x8000_0000
      && start + total <= size
      && reserved + fatSize <= firstData
      && (numFats > 1 ==> reserved + fatSize + fatSize <= firstData)
      && forall c {:trigger ClusterInside(c)} | InRange(c) :: ClusterInside(c)
    }

    /** A cluster's run of sectors lies inside the data area. */
    ghost predicate ClusterInside(c: int) {
      firstData <= Cluster2Sec(c) && Cluster2Sec(c) + perCluster <= total
    }

    predicate InRange(cluster: int) {
      2 <= cluster <= clusters + 1
    }

    /** How many sectors `k` clusters have: `k * perCluster`, by repeated addition so that proofs stay linear. */
    function Span(k: nat): nat {
      if k == 0 then 0 else Span(k - 1) + perCluster
    }

    lemma {:induction false} SpanIsProduct(k: nat)
      ensures Span(k) == k * perCluster
    {
      if k > 0 {
        SpanIsProduct(k - 1);
        ProductStep(k - 1, perCluster);
      }
    }

    lemma {:induction false} SpanMonotone(j: nat, k: nat)
      requires j <= k
      ensures Span(j) <= Span(k)
      ensures j < k ==> Span(j) + perCluster <= Span(k)
    {
      if j < k {
        SpanMonotone(j, k - 1);
      }
    }

    /** First sector of a cluster, or -1 when the cluster number is beyond the volume. */
    function Cluster2Sec(cluster: int): int {
      if cluster > clusters + 1 then -1
      else if cluster >= 2 then Span(cluster - 2) + firstData
      else firstData - Span(2 - cluster)
    }

    /** The formula of the driver. */
    lemma Cluster2SecFormula(cluster: int)
      ensures Cluster2Sec(cluster) == if cluster > clusters + 1 then -1 else (cluster - 2) * perCluster + firstData
    {
      if 2 <= cluster {
        SpanIsProduct(cluster - 2);
      } else {
        SpanIsProduct(2 - cluster);
        assert (2 - cluster) * perCluster == -((cluster - 2) * perCluster);
      }
    }

    /** The sectors of one cluster, in order. */
    ghost function ClusterSecs(cluster: int): (secs: seq<int>)
      ensures |secs| == perCluster
    {
      seq(perCluster, (k: int) => Cluster2Sec(cluster) + k)
    }

    /** The sectors of a chain of clusters, in file order. */
    ghost function FileSecs(chain: seq<int>): (secs: seq<int>)
      ensures |secs| == Span(|chain|)
    {
      if chain == [] then [] else
        FileSecs(chain[..|chain| - 1]) + ClusterSecs(chain[|chain| - 1])
    }

    lemma ClusterFits(c: int)
      requires InRange(c) && firstData + clusters * perCluster <= total
      ensures ClusterInside(c)
    {
      SpanMonotone(c - 2, clusters);
      SpanIsProduct(clusters);
    }

    lemma MountedIsLaid(size: nat)
      requires Mounted(size)
      ensures Laid(size)
    {
      ProductMonotone(1, numFats, fatSize);
      if numFats > 1 {
        ProductMonotone(2, numFats, fatSize);
      }
      ProductMonotone(1, perCluster, clusters);
      forall c | InRange(c)
        ensures ClusterInside(c)
      {
        ClusterFits(c);
      }
    }

    /** Distinct clusters have disjoint runs of sectors. */
    lemma ClusterRunsDisjoint(c: int, d: int)
      requires InRange(c) && InRange(d) && c != d
      ensures Cluster2Sec(c) + perCluster <= Cluster2Sec(d) || Cluster2Sec(d) + perCluster <= Cluster2Sec(c)
    {
      var low, high := if c < d then c else d, if c < d then d else c;
      SpanMonotone(low - 2, high - 2);
    }

    /** Where sector `k` of the `i`-th cluster of a chain is found in the file. */
    lemma {:induction false} FileSecsAt(chain: seq<int>, i: nat, k: nat)
      requires i < |chain| && k < perCluster
      ensures Span(i) + k < |FileSecs(chain)|
      ensures FileSecs(chain)[Span(i) + k] == Cluster2Sec(chain[i]) + k
    {
      var n := |chain| - 1;
      if i < n {
        FileSecsAt(chain[..n], i, k);
      }
    }

    /** Every file sector is some sector of some cluster of the chain. */
    lemma {:induction false} FileSecSplit(chain: seq<int>, q: nat) returns (i: nat, k: nat)
      requires q < |FileSecs(chain)|
      ensures i < |chain| && k < perCluster && q == Span(i) + k
      ensures FileSecs(chain)[q] == Cluster2Sec(chain[i]) + k
    {
      var n := |chain| - 1;
      if q < Span(n) {
        i, k := FileSecSplit(chain[..n], q);
      } else {
        i, k := n, q - Span(n);
      }
    }

    /** No sector belongs to a file twice, and all of a file's sectors are in the data area. */
    lemma FileSecsInjective(size: nat, chain: seq<int>)
      requires Laid(size)
      requires forall i | 0 <= i < |chain| :: InRange(chain[i])
      requires forall i, j | 0 <= i < j < |chain| :: chain[i] != chain[j]
      ensures forall q | 0 <= q < |FileSecs(chain)| :: firstData <= FileSecs(chain)[q] < total
      ensures forall p, q | 0 <= p < q < |FileSecs(chain)| :: FileSecs(chain)[p] != FileSecs(chain)[q]
    {
      var secs := FileSecs(chain);
      forall q | 0 <= q < |secs|
        ensures firstData <= secs[q] < total
      {
        var i, k := FileSecSplit(chain, q);
        assert ClusterInside(chain[i]);
      }
      forall p, q | 0 <= p < q < |secs|
        ensures secs[p] != secs[q]
      {
        var i, k := FileSecSplit(chain, p);
        var j, l := FileSecSplit(chain, q);
        if i != j {
          ClusterRunsDisjoint(chain[i], chain[j]);
        }
      }
    }

    /** Files that share no cluster share no sector. */
    lemma FileSecsApart(chain: seq<int>, other: seq<int>)
      requires forall i | 0 <= i < |chain| :: InRange(chain[i])
      requires forall i | 0 <= i < |other| :: InRange(other[i])
      requires forall c | c in chain :: c !in other
      ensures forall s | s in FileSecs(chain) :: s !in FileSecs(other)
    {
      forall s | s in FileSecs(chain)
        ensures s !in FileSecs(other)
      {
        if s in FileSecs(other) {
          var p: nat :| p < |FileSecs(chain)| && FileSecs(chain)[p] == s;
          var q: nat :| q < |FileSecs(other)| && FileSecs(other)[q] == s;
          var i, k := FileSecSplit(chain, p);
          var j, l := FileSecSplit(other, q);
          assert chain[i] in chain && other[j] in other;
          ClusterRunsDisjoint(chain[i], other[j]);
        }
      }
    }
  }

  lemma ProductMonotone(a: int, b: int, m: nat)
    requires a <= b
    ensures a * m <= b * m
  {
  }

  lemma ProductStep(a: int, m: nat)
    ensures (a + 1) * m == a * m + m
  {
  }
}
