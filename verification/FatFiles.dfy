/** Growing, cutting and removing the cluster chain of one file. */
module FatFiles {
  import opened Geometry
  import opened FatTable
  import opened Chains

  /** First cluster of a chain as a directory entry stores it. */
  function First(chain: seq<int>): int {
    if chain == [] then 0 else chain[0]
  }

  /** The clusters a walk along the links visits before it stops or meets a cluster again. */
  ghost function Walk(links: seq<int>, c: int, room: set<int>): seq<int>
    decreases room
  {
    if c !in room || !(0 <= c < |links|) then [] else
      [c] + Walk(links, Follow(links[c]), room - {c})
  }

  /** Links that start in `room` stay in `room` until they end. */
  ghost predicate Closed(g: Layout, links: seq<int>, room: set<int>) {
    forall c | c in room :: g.InRange(c) && c < |links| && (links[c] == 0 || links[c] >= EOF_MARK || links[c] in room)
  }

  /** On a well-formed chain the walk is the chain. */
  lemma {:induction false} WalkIsChain(g: Layout, links: seq<int>, chain: seq<int>, room: set<int>)
    requires SmallVolume(g) && IsChain(g, links, chain) && 0 !in room
    requires forall c | c in chain :: c in room
    ensures Walk(links, First(chain), room) == chain
  {
    if chain != [] {
      assert Linked(g, links, chain, 0);
      ChainIsAcyclic(g, links, chain);
      SuffixIsChain(g, links, chain, 1);
      var tail := chain[1..];
      forall c | c in tail
        ensures c in room - {chain[0]}
      {
        var i :| 0 <= i < |tail| && tail[i] == c;
        assert chain[i + 1] == c;
      }
      WalkIsChain(g, links, tail, room - {chain[0]});
      assert tail == [] <==> links[chain[0]] >= EOF_MARK;
      assert chain == [chain[0]] + tail;
    }
  }

  /** Freeing one more entry extends the list of freed entries. */
  lemma ZeroedNext(links: seq<int>, w: seq<int>, c: int)
    requires 0 <= c < |links|
    ensures Zeroed(links, w)[c := 0] == Zeroed(links, w + [c])
  {
  }

  /** What get_next_cluster makes of a link. */
  function Follow(link: int): int {
    if link >= EOF_MARK then 0 else link
  }

  function At(chain: seq<int>, j: nat): int {
    if j < |chain| then chain[j] else 0
  }

  /** One round of cutting a chain: the entry after the freed ones is still linked as before. */
  lemma CutStep(g: Layout, links: seq<int>, chain: seq<int>, k: nat, j: nat)
    requires SmallVolume(g) && IsChain(g, links, chain) && k <= j < |chain|
    ensures g.InRange(chain[j]) && chain[j] < |links|
    ensures Follow(Zeroed(links, chain[k..j])[chain[j]]) == At(chain, j + 1)
    ensures Zeroed(links, chain[k..j])[chain[j] := 0] == Zeroed(links, chain[k..j + 1])
    ensures j + 1 < |chain| ==> chain[j + 1] != 0
  {
    ChainIsAcyclic(g, links, chain);
    assert Linked(g, links, chain, j);
    ZeroedNext(links, chain[k..j], chain[j]);
    assert chain[k..j] + [chain[j]] == chain[k..j + 1];
  }

  lemma CutEnd(g: Layout, links: seq<int>, chain: seq<int>, k: nat, j: nat)
    requires SmallVolume(g) && IsChain(g, links, chain) && k <= j <= |chain| && At(chain, j) == 0
    ensures chain[k..j] == chain[k..]
  {
    assert j < |chain| ==> Linked(g, links, chain, j);
  }

  /** One round of removal: `w` has been freed, `c` is next, `left` is what has not been freed. */
  lemma RemoveStep(g: Layout, links: seq<int>, room: set<int>, w: seq<int>, left: set<int>, c: int)
    requires Closed(g, links, room) && c in room && left <= room
    requires forall e | e in room :: e in left <==> e !in w
    ensures g.InRange(c) && c < |links|
    ensures var next := Follow(Zeroed(links, w)[c]);
      if c in left then
        && (next == 0 || next in room)
        && Zeroed(links, w)[c := 0] == Zeroed(links, w + [c])
        && w + Walk(links, c, left) == w + [c] + Walk(links, next, left - {c})
      else
        next == 0 && Zeroed(links, w)[c := 0] == Zeroed(links, w)
  {
    ZeroedNext(links, w, c);
    if c in left {
      WalkStep(links, w, left, c);
    } else {
      ZeroedAgain(links, w, c);
    }
  }

  lemma WalkStep(links: seq<int>, w: seq<int>, left: set<int>, c: int)
    requires c in left && 0 <= c < |links|
    ensures w + Walk(links, c, left) == w + [c] + Walk(links, Follow(links[c]), left - {c})
  {
  }

  lemma ZeroedAgain(links: seq<int>, w: seq<int>, c: int)
    requires c in w && 0 <= c < |links|
    ensures Zeroed(links, w)[c := 0] == Zeroed(links, w)
  {
  }

  /** Allocation takes one cluster from the free ones and gives it to the chain. */
  lemma AppendCounts(g: Layout, links: seq<int>, ch: seq<int>, c: int)
    requires SmallVolume(g) && IsChain(g, links, ch) && c in FreeSet(g, links)
    ensures FreeCount(g, Appended(links, ch, c)) == FreeCount(g, links) - 1
  {
    if ch != [] {
      assert Linked(g, links, ch, |ch| - 1);
      FreeSetOfUpdate(g, links, ch[|ch| - 1], c);
      FreeSetOfUpdate(g, links[ch[|ch| - 1] := c], c, EOF_MARK);
    } else {
      FreeSetOfUpdate(g, links, c, EOF_MARK);
    }
  }

  class FatFile {
    var firstcluster: int        // first cluster in file
    var lastcluster: int         // cluster of last access
    var lastsector: int          // sector of last access
    var clusternum: int          // current cluster number
    var sectornum: int           // sector number in this cluster
    var eof: bool
    ghost var chain: seq<int>    // the clusters of the file
    ghost var at: nat            // which of them was accessed last

    /** The handle's file is a well-formed chain of the volume. */
    ghost predicate OnChain(v: Volume)
      reads this, v
    {
      firstcluster == First(chain) && IsChain(v.g, v.fat, chain)
    }

    /** fat_open: a handle on the file that starts at `startcluster`, positioned at its beginning. */
    constructor (startcluster: int, ghost chain: seq<int>)
      ensures firstcluster == startcluster && lastcluster == startcluster && this.chain == chain && at == 0
      ensures lastsector == 0 && clusternum == 0 && sectornum == 0 && !eof
    {
      firstcluster, lastcluster := startcluster, startcluster;
      lastsector, clusternum, sectornum, eof := 0, 0, 0, false;
      this.chain, at := chain, 0;
    }

    /** The clusters that stay the file's when it grows behind `oldcluster`: none behind cluster 0. */
    ghost function Kept(oldcluster: int): seq<int>
      reads this`chain
    {
      if oldcluster == 0 then [] else chain
    }

    /** Link the free cluster `cluster` behind the last one, `oldcluster`, or make it the file's first. */
    method LinkCluster(v: Volume, oldcluster: int, cluster: int)
      requires v.Valid() && OnChain(v) && cluster in FreeSet(v.g, v.fat)
      requires oldcluster == 0 || (chain != [] && oldcluster == chain[|chain| - 1])
      modifies this`firstcluster, this`chain, v`disk, v`slots, v`freecount, v`fat
      ensures v.Valid() && OnChain(v) && FatsOnly(v.g, old(v.disk), v.disk)
      ensures old(v.Counted()) ==> v.Counted()
      ensures chain == old(Kept(oldcluster)) + [cluster] && v.fat == Appended(old(v.fat), old(Kept(oldcluster)), cluster)
    {
      assert chain != [] ==> Linked(v.g, v.fat, chain, |chain| - 1);
      chain := Kept(oldcluster);
      AppendMakesChain(v.g, v.fat, chain, cluster);
      if oldcluster != 0 {
        v.UpdateFatEntry(oldcluster, cluster);
      } else {
        firstcluster := cluster;
      }
      v.UpdateFatEntry(cluster, EOF_MARK);
      chain := chain + [cluster];
    }

    /** Take a free cluster, near `oldcluster` if there is one, and link it in; 0 if the disk is full. Behind cluster 0 the
        new one becomes the file's first, whatever chain the file had. */
    method AllocateCluster(v: Volume, oldcluster: int) returns (cluster: int)
      requires v.Valid() && OnChain(v)
      requires oldcluster == 0 || (chain != [] && oldcluster == chain[|chain| - 1])
      modifies this`firstcluster, this`chain, v`disk, v`slots, v`freecount, v`nextfree, v`fat
      ensures v.Valid() && OnChain(v) && FatsOnly(v.g, old(v.disk), v.disk)
      ensures old(v.Counted()) ==> v.Counted()
      ensures cluster == 0 <==> FreeSet(v.g, old(v.fat)) == {}
      ensures v.nextfree == if cluster == 0 then old(v.nextfree) else cluster
      ensures cluster == 0 ==> chain == old(chain) && v.fat == old(v.fat)
      ensures cluster != 0 ==> cluster in FreeSet(v.g, old(v.fat))
      ensures cluster != 0 ==>
        chain == old(Kept(oldcluster)) + [cluster] && v.fat == Appended(old(v.fat), old(Kept(oldcluster)), cluster)
    {
      assert chain != [] ==> Linked(v.g, v.fat, chain, |chain| - 1);
      if oldcluster > 0 {
        cluster := v.FindFreeCluster(oldcluster + 1);
      } else {
        cluster := v.FindFreeCluster(v.nextfree);
      }
      if cluster != 0 {
        LinkCluster(v, oldcluster, cluster);
      }
    }

    /** The cluster after the first `k` ones, allocated behind the chain if need be; 0 if the disk is full. Behind cluster
        0 a new one is always taken. */
    method NextWriteCluster(v: Volume, oldcluster: int, ghost k: int) returns (cluster: int, newsector: int)
      requires v.Valid() && OnChain(v)
      requires 0 <= k <= |chain| && oldcluster == (if k == 0 then 0 else chain[k - 1])
      modifies this`firstcluster, this`chain, v`disk, v`slots, v`freecount, v`nextfree, v`fat
      ensures v.Valid() && OnChain(v) && FatsOnly(v.g, old(v.disk), v.disk)
      ensures old(v.Counted()) ==> v.Counted()
      ensures 0 < k < |old(chain)| ==> cluster == old(chain)[k]
      ensures 0 < k < |old(chain)| || cluster == 0 ==> chain == old(chain) && v.fat == old(v.fat)
      ensures k == 0 || k == |old(chain)| ==> (cluster == 0 <==> FreeSet(v.g, old(v.fat)) == {})
      ensures (k == 0 || k == |old(chain)|) && cluster != 0 ==>
        && cluster in FreeSet(v.g, old(v.fat))
        && chain == old(chain)[..k] + [cluster] && v.fat == Appended(old(v.fat), old(chain)[..k], cluster)
      ensures cluster != 0 ==> newsector == v.g.Cluster2Sec(cluster)
    {
      assert k > 0 ==> Linked(v.g, v.fat, chain, k - 1);
      cluster := 0;
      if oldcluster != 0 {
        cluster := v.GetNextCluster(oldcluster);
      }
      assert cluster == if 0 < k < |chain| then chain[k] else 0;
      assert k < |chain| ==> Linked(v.g, v.fat, chain, k);
      assert k == |chain| ==> chain[..k] == chain;
      if cluster == 0 {
        cluster := AllocateCluster(v, oldcluster);
        if cluster == 0 {
          newsector := 0;
          return;
        }
      }
      assert v.g.ClusterInside(cluster);
      newsector := v.g.Cluster2Sec(cluster);
      if newsector < 0 {
        cluster := 0;
      }
    }

    /** The loop of fat_truncate: free what follows the cluster of the last access. */
    method FreeBehind(v: Volume, ghost ch: seq<int>, ghost k: int)
      requires v.Valid() && IsChain(v.g, v.fat, ch) && v.fat[0] >= EOF_MARK
      requires 0 <= k <= |ch| && lastcluster == (if k == 0 then 0 else ch[k - 1]) && (k == 0 ==> ch == [])
      modifies v`disk, v`slots, v`freecount, v`fat
      ensures v.Valid() && FatsOnly(v.g, old(v.disk), v.disk) && (old(v.Counted()) ==> v.Counted())
      ensures v.fat == Zeroed(old(v.fat), ch[k..])
    {
      ghost var links, j := v.fat, k;
      assert k > 0 ==> Linked(v.g, links, ch, k - 1);
      var last := v.GetNextCluster(lastcluster);
      assert Zeroed(links, ch[k..k]) == links;
      while last != 0
        invariant v.Valid() && FatsOnly(v.g, old(v.disk), v.disk) && (old(v.Counted()) ==> v.Counted())
        invariant k <= j <= |ch| && v.fat == Zeroed(links, ch[k..j]) && last == At(ch, j)
        decreases |ch| - j
      {
        last := FreeOne(v, last, links, ch, k, j);
        j := j + 1;
      }
      CutEnd(v.g, links, ch, k, j);
    }

    /** One round of it. */
    method FreeOne(v: Volume, last: int, ghost links: seq<int>, ghost ch: seq<int>, ghost k: nat, ghost j: nat)
      returns (next: int)
      requires v.Valid() && IsChain(v.g, links, ch) && k <= j < |ch| && last == ch[j]
      requires v.fat == Zeroed(links, ch[k..j])
      modifies v`disk, v`slots, v`freecount, v`fat
      ensures v.Valid() && FatsOnly(v.g, old(v.disk), v.disk) && (old(v.Counted()) ==> v.Counted())
      ensures v.fat == Zeroed(links, ch[k..j + 1]) && next == At(ch, j + 1)
    {
      CutStep(v.g, links, ch, k, j);
      next := v.GetNextCluster(last);
      v.UpdateFatEntry(last, 0);
    }

    /** Cut the chain behind the cluster of the last access, which is its `k`-th; without one nothing is cut. */
    method Truncate(v: Volume, ghost k: int)
      requires v.Valid() && OnChain(v) && v.fat[0] >= EOF_MARK
      requires 0 <= k <= |chain| && lastcluster == (if k == 0 then 0 else chain[k - 1])
      modifies this`chain, v`disk, v`slots, v`freecount, v`fat
      ensures v.Valid() && OnChain(v) && FatsOnly(v.g, old(v.disk), v.disk)
      ensures old(v.Counted()) ==> v.Counted()
      ensures if k == 0 then chain == old(chain) && v.fat == old(v.fat)
              else chain == old(chain)[..k] && v.fat == Cut(old(v.fat), old(chain), k)
    {
      ghost var links, ch := v.fat, if k == 0 then [] else chain;
      assert k > 0 ==> Linked(v.g, links, ch, k - 1);
      assert k == 0 ==> Zeroed(links, ch[k..]) == links;
      FreeBehind(v, ch, k);
      if lastcluster != 0 {
        v.UpdateFatEntry(lastcluster, EOF_MARK);
        CutMakesChain(v.g, links, ch, k);
        chain := ch[..k];
      }
    }

    /** Free every cluster a walk from the first one meets; ends even when the links run in a circle. */
    method RemoveClusters(v: Volume, ghost room: set<int>)
      requires v.Valid() && Closed(v.g, v.fat, room)
      requires firstcluster == 0 || firstcluster in room
      modifies this`firstcluster, v`disk, v`slots, v`freecount, v`fat
      ensures v.Valid() && FatsOnly(v.g, old(v.disk), v.disk)
      ensures old(v.Counted()) ==> v.Counted()
      ensures v.fat == Zeroed(old(v.fat), Walk(old(v.fat), old(firstcluster), room))
      ensures firstcluster == 0
    {
      ghost var links, left, done := v.fat, room, [];
      ghost var walk := Walk(links, firstcluster, room);
      var last := firstcluster;
      assert Zeroed(links, []) == links && [] + walk == walk;
      while last != 0
        invariant v.Valid() && FatsOnly(v.g, old(v.disk), v.disk)
        invariant old(v.Counted()) ==> v.Counted()
        invariant left <= room && forall c | c in room :: c in left <==> c !in done
        invariant v.fat == Zeroed(links, done) && 0 !in room
        invariant last == 0 || last in room
        invariant walk == done + Walk(links, last, left)
        decreases left, last != 0
      {
        RemoveStep(v.g, links, room, done, left, last);
        var next := v.GetNextCluster(last);
        v.UpdateFatEntry(last, 0);
        if last in left {
          left, done := left - {last}, done + [last];
        }
        last := next;
      }
      assert walk == done;
      firstcluster := 0;
    }

    /** fat_remove, without the directory entries: exactly the clusters of the file become free. */
    method Remove(v: Volume)
      requires v.Valid() && OnChain(v)
      modifies this`firstcluster, this`chain, v`disk, v`slots, v`freecount, v`fat
      ensures v.Valid() && OnChain(v) && chain == []
      ensures v.fat == Zeroed(old(v.fat), old(chain))
      ensures old(v.Counted()) ==> v.Counted() && v.freecount == old(v.freecount) + |old(chain)|
      ensures !v.flushDisabled ==> v.disk[v.g.FatAt(0)..v.g.FatEnd()] == v.Sectors()
      ensures OutsideKept(v.g, old(v.disk), v.disk)
    {
      ghost var room := set c | c in chain;
      ChainClosed(v.g, v.fat, chain);
      WalkIsChain(v.g, v.fat, chain, room);
      RemovalCounts(v.g, v.fat, chain);
      RemoveClusters(v, room);
      chain := [];
      v.FlushFat(false);
    }

    /** fat_closewrite, without the directory entry: an empty file gives up its first cluster, and only that. */
    method CloseWrite(v: Volume, size: int)
      requires v.Valid() && OnChain(v)
      modifies this`firstcluster, this`chain, v`disk, v`slots, v`freecount, v`fat
      ensures v.Valid() && OnChain(v)
      ensures old(v.Counted()) ==> v.Counted()
      ensures size == 0 ==> chain == [] && v.fat == Zeroed(old(v.fat), old(chain)[..if old(chain) == [] then 0 else 1])
      ensures size != 0 ==> chain == old(chain) && v.fat == old(v.fat)
      ensures !v.flushDisabled ==> v.disk[v.g.FatAt(0)..v.g.FatEnd()] == v.Sectors()
      ensures OutsideKept(v.g, old(v.disk), v.disk)
    {
      if size == 0 {
        assert chain != [] ==> Linked(v.g, v.fat, chain, 0);
        assert chain == [] ==> Zeroed(v.fat, chain[..0]) == v.fat;
        if firstcluster != 0 {
          ZeroedNext(v.fat, [], firstcluster);
          assert Zeroed(v.fat, []) == v.fat && [] + [firstcluster] == chain[..1];
          v.UpdateFatEntry(firstcluster, 0);
          firstcluster := 0;
        }
        chain := [];
      }
      v.FlushFat(false);
    }
  }

  lemma ChainClosed(g: Layout, links: seq<int>, chain: seq<int>)
    requires IsChain(g, links, chain)
    ensures Closed(g, links, set c | c in chain)
  {
    forall c | c in chain
      ensures g.InRange(c) && c < |links| && (links[c] >= EOF_MARK || links[c] in chain)
    {
      var i :| 0 <= i < |chain| && chain[i] == c;
      assert Linked(g, links, chain, i);
    }
  }

  /** Freeing a chain makes exactly as many clusters free as the chain is long. */
  lemma {:induction false} RemovalCounts(g: Layout, links: seq<int>, chain: seq<int>)
    requires SmallVolume(g) && IsChain(g, links, chain)
    ensures FreeCount(g, Zeroed(links, chain)) == FreeCount(g, links) + |chain|
  {
    if chain == [] {
      assert Zeroed(links, chain) == links;
    } else {
      ChainIsAcyclic(g, links, chain);
      PartialRemovalCounts(g, links, chain, |chain|);
      assert chain[..|chain|] == chain;
    }
  }

  lemma {:induction false} PartialRemovalCounts(g: Layout, links: seq<int>, chain: seq<int>, k: nat)
    requires SmallVolume(g) && IsChain(g, links, chain) && Distinct(chain) && k <= |chain|
    ensures FreeCount(g, Zeroed(links, chain[..k])) == FreeCount(g, links) + k
  {
    if k == 0 {
      assert Zeroed(links, chain[..0]) == links;
    } else {
      var c := chain[k - 1];
      assert Linked(g, links, chain, k - 1);
      PartialRemovalCounts(g, links, chain, k - 1);
      ZeroedNext(links, chain[..k - 1], c);
      assert chain[..k - 1] + [c] == chain[..k];
      FreeSetOfUpdate(g, Zeroed(links, chain[..k - 1]), c, 0);
    }
  }
}
