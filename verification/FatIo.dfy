/** Seeking in a file and moving runs of sectors between a buffer and the disk. */
module FatIo {
  import opened Folding
  import opened Sectors
  import opened Geometry
  import opened FatTable
  import opened Chains
  import opened FatFiles

  const MAX_RUN := 256     // sectors per request to the storage driver

  /** The sectors first, first + 1, ... */
  ghost function Run(first: int, count: int): (r: seq<int>)
    requires 0 <= count
    ensures |r| == count
  {
    seq(count, (k: int) => first + k)
  }

  lemma InRun(first: int, count: int)
    requires 0 <= count
    ensures forall s :: s in Run(first, count) <==> first <= s < first + count
  {
    forall s | first <= s < first + count
      ensures s in Run(first, count)
    {
      assert Run(first, count)[s - first] == s;
    }
  }

  /** Sector-sized piece `t` of a buffer, counted from offset `from`. */
  ghost function BufSector(b: seq<Byte>, from: int, t: int): seq<Byte>
    requires 0 <= from && 0 <= t && from + SECTOR_SIZE * t + SECTOR_SIZE <= |b|
  {
    b[from + SECTOR_SIZE * t..from + SECTOR_SIZE * t + SECTOR_SIZE]
  }

  ghost predicate InFats(g: Layout, s: int) {
    g.FatAt(0) <= s < g.start + g.firstData
  }

  /** Absolute sector `s` is neither in a FAT nor written by an exchange of the sectors `part`. */
  ghost predicate DiskKept(g: Layout, part: seq<int>, write: bool, s: int) {
    !InFats(g, s) && (write ==> s - g.start !in part)
  }

  /** Buffer offset `x` is not read into by an exchange of `count` bytes at `from`. */
  ghost predicate BufKept(from: int, count: int, write: bool, x: int) {
    write || !(from <= x < from + count)
  }

  /** The sectors `part` of the volume have been exchanged, in order, with the buffer from offset `from` on;
      apart from the FATs nothing else on the disk or in the buffer has changed. */
  ghost predicate Exchanged(g: Layout, part: seq<int>, from: int, disk0: seq<Sector>, b0: seq<Byte>,
                            disk: seq<Sector>, b: seq<Byte>, write: bool)
  {
    && |disk| == |disk0| && |b| == |b0| && 0 <= from && from + SECTOR_SIZE * |part| <= |b|
    && (forall t {:trigger BufSector(b, from, t)} | 0 <= t < |part| ::
          0 <= g.start + part[t] < |disk| && BufSector(b, from, t) == disk[g.start + part[t]])
    && (forall x {:trigger BufKept(from, SECTOR_SIZE * |part|, write, x)} |
          0 <= x < |b| && BufKept(from, SECTOR_SIZE * |part|, write, x) :: b[x] == b0[x])
    && (forall s {:trigger DiskKept(g, part, write, s)} |
          0 <= s < |disk| && DiskKept(g, part, write, s) :: disk[s] == disk0[s])
  }

  /** Moving the FAT about does not disturb what has been exchanged. */
  lemma ExchangedBesideFats(g: Layout, part: seq<int>, from: int, disk0: seq<Sector>, b0: seq<Byte>,
                            disk: seq<Sector>, disk': seq<Sector>, b: seq<Byte>, write: bool)
    requires g.Laid(|disk|) && Exchanged(g, part, from, disk0, b0, disk, b, write) && FatsOnly(g, disk, disk')
    requires forall t | 0 <= t < |part| :: g.firstData <= part[t]
    ensures Exchanged(g, part, from, disk0, b0, disk', b, write)
  {
    forall t | 0 <= t < |part|
      ensures 0 <= g.start + part[t] < |disk'| && BufSector(b, from, t) == disk'[g.start + part[t]]
    {
      var piece := BufSector(b, from, t);
      assert 0 <= g.start + part[t] < |disk| && piece == disk[g.start + part[t]];
    }
    forall s | 0 <= s < |disk| && DiskKept(g, part, write, s)
      ensures disk'[s] == disk0[s]
    {
    }
  }

  /** What one request to the storage driver does. */
  ghost predicate RunMoved(g: Layout, first: int, count: int, pos: int, disk: seq<Sector>, b: seq<Byte>,
                           disk': seq<Sector>, b': seq<Byte>, write: bool)
    requires 0 <= count && 0 <= pos && pos + SECTOR_SIZE * count <= |b|
  {
    && |disk'| == |disk| && |b'| == |b|
    && 0 <= g.start + first && g.start + first + count <= |disk|
    && (forall t {:trigger BufSector(b', pos, t)} | 0 <= t < count :: BufSector(b', pos, t) == disk'[g.start + first + t])
    && (forall x {:trigger BufKept(pos, SECTOR_SIZE * count, write, x)} |
          0 <= x < |b| && BufKept(pos, SECTOR_SIZE * count, write, x) :: b'[x] == b[x])
    && (forall s {:trigger SectorKept(g, first, count, write, s)} |
          0 <= s < |disk| && SectorKept(g, first, count, write, s) :: disk'[s] == disk[s])
  }

  /** Absolute sector `s` is not overwritten by a run. */
  ghost predicate SectorKept(g: Layout, first: int, count: int, write: bool, s: int) {
    write ==> !(g.start + first <= s < g.start + first + count)
  }

  /** A further request extends the exchanged part by its run of sectors. */
  lemma ExchangedByRun(g: Layout, part: seq<int>, from: int, disk0: seq<Sector>, b0: seq<Byte>,
                       disk: seq<Sector>, b: seq<Byte>, disk': seq<Sector>, b': seq<Byte>, write: bool,
                       first: int, count: int)
    requires Exchanged(g, part, from, disk0, b0, disk, b, write)
    requires 0 <= count && from + SECTOR_SIZE * (|part| + count) <= |b|
    requires RunMoved(g, first, count, from + SECTOR_SIZE * |part|, disk, b, disk', b', write)
    requires forall t | 0 <= t < |part| :: part[t] !in Run(first, count)
    ensures Exchanged(g, part + Run(first, count), from, disk0, b0, disk', b', write)
  {
    var part', pos := part + Run(first, count), from + SECTOR_SIZE * |part|;
    InRun(first, count);
    forall t | 0 <= t < |part'|
      ensures 0 <= g.start + part'[t] < |disk'| && BufSector(b', from, t) == disk'[g.start + part'[t]]
    {
      if t < |part| {
        PieceKept(b, b', from, t, pos, count, write);
        var piece := BufSector(b, from, t);
        assert 0 <= g.start + part[t] < |disk| && piece == disk[g.start + part[t]];
        assert part[t] !in Run(first, count) && SectorKept(g, first, count, write, g.start + part[t]);
      } else {
        assert BufSector(b', from, t) == BufSector(b', pos, t - |part|);
      }
    }
    forall x | 0 <= x < |b| && BufKept(from, SECTOR_SIZE * |part'|, write, x)
      ensures b'[x] == b0[x]
    {
      assert BufKept(from, SECTOR_SIZE * |part|, write, x) && BufKept(pos, SECTOR_SIZE * count, write, x);
    }
    assert forall x :: x in part' <==> x in part || x in Run(first, count);
    forall s | 0 <= s < |disk| && DiskKept(g, part', write, s)
      ensures disk'[s] == disk0[s]
    {
      assert DiskKept(g, part, write, s) && SectorKept(g, first, count, write, s);
    }
  }

  /** A piece of the buffer before the run is not touched by it. */
  lemma PieceKept(b: seq<Byte>, b': seq<Byte>, from: int, t: int, pos: int, count: int, write: bool)
    requires 0 <= from && 0 <= t && from + SECTOR_SIZE * t + SECTOR_SIZE <= pos && 0 <= count
    requires pos + SECTOR_SIZE * count <= |b| == |b'|
    requires forall x {:trigger BufKept(pos, SECTOR_SIZE * count, write, x)} |
      0 <= x < |b| && BufKept(pos, SECTOR_SIZE * count, write, x) :: b'[x] == b[x]
    ensures BufSector(b', from, t) == BufSector(b, from, t)
  {
    forall y | 0 <= y < SECTOR_SIZE
      ensures BufSector(b', from, t)[y] == BufSector(b, from, t)[y]
    {
      assert BufKept(pos, SECTOR_SIZE * count, write, from + SECTOR_SIZE * t + y);
    }
  }

  /** The disk after `count` sectors from `first` on have been overwritten from a buffer. */
  function Overwritten(disk: seq<Sector>, first: int, count: int, data: seq<Byte>, pos: int): (d: seq<Sector>)
    requires 0 <= first && 0 <= count && first + count <= |disk| && 0 <= pos && pos + SECTOR_SIZE * count <= |data|
    ensures |d| == |disk|
  {
    seq(|disk|, (s: int) requires 0 <= s < |disk| =>
      if first <= s < first + count
      then data[pos + SECTOR_SIZE * (s - first)..pos + SECTOR_SIZE * (s - first) + SECTOR_SIZE] else disk[s])
  }

  lemma OverwritingMovesRun(g: Layout, first: int, count: int, pos: int, disk: seq<Sector>, b: seq<Byte>)
    requires 0 <= g.start + first && 0 <= count && g.start + first + count <= |disk|
    requires 0 <= pos && pos + SECTOR_SIZE * count <= |b|
    ensures RunMoved(g, first, count, pos, disk, b, Overwritten(disk, g.start + first, count, b, pos), b, true)
  {
  }

  lemma ReadingMovesRun(g: Layout, first: int, count: int, pos: int, disk: seq<Sector>, b: seq<Byte>, b': seq<Byte>)
    requires 0 <= g.start + first && 0 <= count && g.start + first + count <= |disk|
    requires 0 <= pos && pos + SECTOR_SIZE * count <= |b| == |b'|
    requires forall x | pos <= x < pos + SECTOR_SIZE * count ::
      b'[x] == disk[g.start + first + (x - pos) / SECTOR_SIZE][(x - pos) % SECTOR_SIZE]
    requires forall x | 0 <= x < |b| && !(pos <= x < pos + SECTOR_SIZE * count) :: b'[x] == b[x]
    ensures RunMoved(g, first, count, pos, disk, b, disk, b', false)
  {
    forall t | 0 <= t < count
      ensures BufSector(b', pos, t) == disk[g.start + first + t]
    {
      forall y | 0 <= y < SECTOR_SIZE
        ensures BufSector(b', pos, t)[y] == disk[g.start + first + t][y]
      {
        assert b'[pos + SECTOR_SIZE * t + y] == BufSector(b', pos, t)[y];
        assert (SECTOR_SIZE * t + y) / SECTOR_SIZE == t && (SECTOR_SIZE * t + y) % SECTOR_SIZE == y;
      }
    }
  }

  /** One request to the storage driver; the source's panics for writes outside the data area are excluded. */
  method Transfer(v: Volume, start: int, count: int, buf: array<Byte>, pos: nat, write: bool)
    requires v.Valid() && 1 <= count <= MAX_RUN && pos + SECTOR_SIZE * count <= buf.Length
    requires v.g.firstData <= start && start + count <= v.g.total
    modifies v`disk, buf
    ensures v.Valid() && RunMoved(v.g, start, count, pos, old(v.disk), old(buf[..]), v.disk, buf[..], write)
  {
    assert Unfold(0);
    var first := start + v.g.start;
    var disk := v.disk;
    ghost var b := buf[..];
    if write {
      OverwritingMovesRun(v.g, start, count, pos, disk, b);
      v.disk := Overwritten(disk, first, count, buf[..], pos);
      SameFatsSameView(v.g, disk, v.disk, v.slots);
    } else {
      forall x | pos <= x < pos + SECTOR_SIZE * count {
        buf[x] := disk[first + (x - pos) / SECTOR_SIZE][(x - pos) % SECTOR_SIZE];
      }
      ReadingMovesRun(v.g, start, count, pos, disk, b, buf[..]);
    }
  }

  /** The position fat_readwrite works on; the handle keeps a copy between calls. */
  datatype Cursor = Cursor(cluster: int, sector: int, clusternum: int, numsec: int, eof: bool)

  /** The cursor has just accessed sector `numsec` (counted from 1) of the `at`-th cluster, or nothing yet.
      A handle that allocated its own first cluster counts clusters one too high, while it is on the last one. */
  ghost predicate Placed(g: Layout, chain: seq<int>, cur: Cursor, at: nat) {
    if cur.numsec == 0 then
      at == 0 && cur.clusternum == 0 && cur.sector == 0 && cur.cluster == First(chain)
    else
      && at < |chain| && cur.cluster == chain[at]
      && 1 <= cur.numsec <= g.perCluster && cur.sector == g.Cluster2Sec(chain[at]) + cur.numsec - 1
      && (cur.clusternum == at || cur.clusternum == at + 1 == |chain|)
  }

  /** The number of the next sector of the file. */
  ghost function Position(g: Layout, numsec: int, at: nat): int {
    g.Span(at) + numsec
  }

  ghost function Capacity(g: Layout, chain: seq<int>): nat {
    g.Span(|chain|)
  }

  /** The cursor has accessed the last sector of the chain. */
  ghost predicate AtEnd(g: Layout, chain: seq<int>, cur: Cursor, at: nat) {
    if cur.numsec == 0 then chain == [] else cur.numsec == g.perCluster && at + 1 == |chain|
  }

  /** The cursor stands at the end just when its position is the capacity of the chain. */
  lemma EndIsCapacity(g: Layout, chain: seq<int>, cur: Cursor, at: nat)
    requires 1 <= g.perCluster && Placed(g, chain, cur, at)
    ensures Position(g, cur.numsec, at) <= Capacity(g, chain)
    ensures AtEnd(g, chain, cur, at) <==> Position(g, cur.numsec, at) == Capacity(g, chain)
  {
    if cur.numsec == 0 {
      g.SpanMonotone(0, |chain|);
    } else {
      g.SpanMonotone(at + 1, |chain|);
    }
  }

  /** `nxt` is one sector after `cur`: in the same cluster, or the first of the next one. */
  ghost predicate OneOn(g: Layout, cur: Cursor, at: nat, nxt: Cursor, at': nat) {
    || (at' == at && nxt.numsec == cur.numsec + 1)
    || (at' == at + 1 && cur.numsec == g.perCluster && nxt.numsec == 1)
  }

  lemma OneOnIsNext(g: Layout, cur: Cursor, at: nat, nxt: Cursor, at': nat)
    requires OneOn(g, cur, at, nxt, at')
    ensures Position(g, nxt.numsec, at') == Position(g, cur.numsec, at) + 1
  {
  }

  /** One free cluster has been linked behind the chain. */
  ghost predicate OneMore(g: Layout, links: seq<int>, chain: seq<int>, links': seq<int>, chain': seq<int>) {
    && |chain'| == |chain| + 1 && chain' == chain + [chain'[|chain|]]
    && chain'[|chain|] in FreeSet(g, links)
    && links' == Appended(links, chain, chain'[|chain|])
  }

  /** Where a transfer goes on from cursor `cur`: from there, or from the end of the chain if the last transfer, a write,
      has met it. */
  ghost predicate From(g: Layout, chain: seq<int>, from: Cursor, cur: Cursor, at: nat) {
    && Placed(g, chain, from, at) && !from.eof
    && (cur == from || (cur == from.(numsec := cur.numsec, eof := true) && cur.numsec > from.numsec && AtEnd(g, chain, from, at)))
  }

  /** Move on to the cluster behind the `at`-th one, allocating it when writing at the end of the chain. */
  method NextCluster(f: FatFile, v: Volume, cur: Cursor, write: bool, ghost at: nat, ghost from: Cursor)
    returns (nxt: Cursor, full: bool)
    requires v.Valid() && f.OnChain(v) && From(v.g, f.chain, from, cur, at) && (!write ==> !cur.eof)
    requires (f.chain != [] ==> from.numsec == v.g.perCluster) && (!write ==> v.fat[0] >= EOF_MARK)
    modifies f`firstcluster, f`chain, v`disk, v`slots, v`freecount, v`nextfree, v`fat
    ensures v.Valid() && f.OnChain(v) && FatsOnly(v.g, old(v.disk), v.disk)
    ensures old(v.Counted()) ==> v.Counted()
    ensures !nxt.eof ==> Placed(v.g, f.chain, nxt, if old(f.chain) == [] then 0 else at + 1) && nxt.numsec == 1
    ensures !nxt.eof ==> nxt.clusternum == cur.clusternum + 1
    ensures nxt.eof <==> AtEnd(v.g, old(f.chain), from, at) && (write ==> FreeSet(v.g, old(v.fat)) == {})
    ensures full <==> nxt.eof && write
    ensures full ==> nxt == cur.(numsec := cur.numsec + 1, eof := true)
    ensures nxt.eof && !write ==> nxt == Cursor(0, v.g.Cluster2Sec(0), cur.clusternum + 1, 1, true)
    ensures if write && !nxt.eof && AtEnd(v.g, old(f.chain), from, at)
      then OneMore(v.g, old(v.fat), old(f.chain), v.fat, f.chain)
      else f.chain == old(f.chain) && v.fat == old(v.fat)
  {
    ghost var chain, k := f.chain, if f.chain == [] then 0 else at + 1;
    assert at < |chain| ==> Linked(v.g, v.fat, chain, at);
    assert k < |chain| ==> Linked(v.g, v.fat, chain, k);
    assert k == |chain| ==> chain[..k] == chain;
    var cluster, sector;
    if write {
      cluster, sector := f.NextWriteCluster(v, cur.cluster, k);
    } else {
      cluster := v.GetNextCluster(cur.cluster);
      sector := v.g.Cluster2Sec(cluster);
    }
    full := false;
    if cluster == 0 {
      if write {
        nxt := cur.(numsec := cur.numsec + 1, eof := true);
        full := true;
      } else {
        nxt := Cursor(0, sector, cur.clusternum + 1, 1, true);
      }
    } else {
      nxt := Cursor(cluster, sector, cur.clusternum + 1, 1, false);
    }
  }

  /** Advance the cursor by one sector. */
  method NextSector(f: FatFile, v: Volume, cur: Cursor, write: bool, ghost at: nat, ghost from: Cursor)
    returns (nxt: Cursor, full: bool, ghost at': nat)
    requires v.Valid() && f.OnChain(v) && From(v.g, f.chain, from, cur, at) && (!write ==> !cur.eof)
    requires !write ==> v.fat[0] >= EOF_MARK
    modifies f`firstcluster, f`chain, v`disk, v`slots, v`freecount, v`nextfree, v`fat
    ensures v.Valid() && f.OnChain(v) && FatsOnly(v.g, old(v.disk), v.disk)
    ensures old(v.Counted()) ==> v.Counted()
    ensures !nxt.eof ==> Placed(v.g, f.chain, nxt, at') && nxt.numsec >= 1 && OneOn(v.g, from, at, nxt, at')
    ensures !nxt.eof ==> nxt.clusternum - at' == cur.clusternum - at + (if old(f.chain) == [] then 1 else 0)
    ensures nxt.eof <==> AtEnd(v.g, old(f.chain), from, at) && (write ==> FreeSet(v.g, old(v.fat)) == {})
    ensures full <==> nxt.eof && write
    ensures full ==> nxt == cur.(numsec := cur.numsec + 1, eof := true)
    ensures nxt.eof && !write ==> nxt == Cursor(0, v.g.Cluster2Sec(0), cur.clusternum + 1, 1, true)
    ensures if write && !nxt.eof && AtEnd(v.g, old(f.chain), from, at)
      then OneMore(v.g, old(v.fat), old(f.chain), v.fat, f.chain)
      else f.chain == old(f.chain) && v.fat == old(v.fat)
  {
    assert at < |f.chain| ==> Linked(v.g, v.fat, f.chain, at);
    assert f.chain != [] ==> v.g.ClusterInside(f.chain[at]);
    full, at' := false, at;
    if cur.numsec + 1 > v.g.perCluster || cur.cluster == 0 {
      at' := if f.chain == [] then 0 else at + 1;
      nxt, full := NextCluster(f, v, cur, write, at, from);
    } else if cur.sector != 0 {
      nxt := cur.(sector := cur.sector + 1, numsec := cur.numsec + 1);
    } else {
      nxt := cur.(sector := v.g.Cluster2Sec(f.firstcluster), numsec := 1);
    }
  }

  /** Sectors that can be exchanged: all different, and inside the data area. */
  ghost predicate DataSectors(g: Layout, secs: seq<int>) {
    && (forall t {:trigger InData(g, secs, t)} | 0 <= t < |secs| :: InData(g, secs, t))
    && (forall s, t {:trigger Differ(secs, s, t)} | 0 <= s < t < |secs| :: Differ(secs, s, t))
  }

  ghost predicate InData(g: Layout, secs: seq<int>, t: int)
    requires 0 <= t < |secs|
  {
    g.firstData <= secs[t] < g.total
  }

  ghost predicate Differ(secs: seq<int>, s: int, t: int)
    requires 0 <= s < t < |secs|
  {
    secs[s] != secs[t]
  }

  /** `part` has been exchanged already; the rest of `done` is one run of at most 256 sectors still to be. */
  ghost predicate Pending(part: seq<int>, first: int, last: int, done: seq<int>) {
    if done == [] then
      part == [] && first == 0 && last == 0
    else
      1 <= last - first + 1 <= MAX_RUN && done == part + Run(first, last - first + 1)
  }

  lemma PrefixIsData(g: Layout, secs: seq<int>, p: int, q: int)
    requires DataSectors(g, secs) && 0 <= p <= q <= |secs|
    ensures DataSectors(g, secs[p..q])
  {
    var part := secs[p..q];
    forall t | 0 <= t < |part|
      ensures InData(g, part, t)
    {
      assert InData(g, secs, p + t);
    }
    forall s, t | 0 <= s < t < |part|
      ensures Differ(part, s, t)
    {
      assert Differ(secs, p + s, p + t);
    }
  }

  /** A run that completes a list of different data sectors lies in the data area, apart from the rest. */
  lemma RunApart(g: Layout, part: seq<int>, first: int, count: int, all: seq<int>)
    requires DataSectors(g, all) && 1 <= count && all == part + Run(first, count)
    ensures g.firstData <= first && first + count <= g.total
    ensures forall t | 0 <= t < |part| :: part[t] !in Run(first, count)
    ensures forall t | 0 <= t < |part| :: g.firstData <= part[t]
  {
    assert all[|part|] == Run(first, count)[0] == first;
    assert all[|part| + count - 1] == Run(first, count)[count - 1];
    assert InData(g, all, |part|) && InData(g, all, |part| + count - 1);
    forall t | 0 <= t < |part|
      ensures part[t] !in Run(first, count) && g.firstData <= part[t]
    {
      assert all[t] == part[t] && InData(g, all, t);
      forall k | 0 <= k < count
        ensures Run(first, count)[k] != part[t]
      {
        assert Differ(all, t, |part| + k);
      }
    }
  }

  /** The next sector either extends the pending run or starts a new one. */
  lemma PendingNext(g: Layout, part: seq<int>, first: int, last: int, done: seq<int>, sector: int)
    requires 0 < g.firstData && DataSectors(g, done + [sector]) && Pending(part, first, last, done)
    ensures done == [] <==> first == 0
    ensures done != [] ==> sector != first && part + Run(first, last - first + 1) == done
    ensures done != [] && sector == last + 1 ==>
      part + Run(first, sector - first + 1) == done + [sector]
    ensures done + Run(sector, 1) == done + [sector]
    ensures done != [] ==> DataSectors(g, done)
    ensures sector > 0
  {
    var all := done + [sector];
    assert InData(g, all, |done|);
    if done != [] {
      var n := last - first + 1;
      assert all[|part|] == done[|part|] == Run(first, n)[0] == first;
      assert InData(g, all, |part|) && Differ(all, |part|, |done|);
      PrefixIsData(g, all, 0, |done|);
      assert all[0..|done|] == done;
      if sector == last + 1 {
        assert Run(first, n + 1) == Run(first, n) + [sector];
        assert part + Run(first, n + 1) == part + Run(first, n) + [sector];
      }
    }
  }

  /** Exchange the pending run, which completes the sectors `all`. */
  method SendRun(v: Volume, buf: array<Byte>, write: bool, first: int, count: int, pos: nat, ghost part: seq<int>,
                 ghost all: seq<int>, ghost from: nat, ghost disk0: seq<Sector>, ghost b0: seq<Byte>)
    requires v.Valid() && Exchanged(v.g, part, from, disk0, b0, v.disk, buf[..], write)
    requires 1 <= count <= MAX_RUN && all == part + Run(first, count) && DataSectors(v.g, all)
    requires pos == from + SECTOR_SIZE * |part| && from + SECTOR_SIZE * |all| <= buf.Length
    modifies v`disk, buf
    ensures v.Valid() && Exchanged(v.g, all, from, disk0, b0, v.disk, buf[..], write)
  {
    ghost var disk, b := v.disk, buf[..];
    RunApart(v.g, part, first, count, all);
    Transfer(v, first, count, buf, pos, write);
    ExchangedByRun(v.g, part, from, disk0, b0, disk, b, v.disk, buf[..], write, first, count);
  }

  /** Merge the sector into the pending run, or send the run on its way and start a new one with it. */
  method Schedule(v: Volume, buf: array<Byte>, write: bool, lastOne: bool, sector: int, first0: int, last: int, pos0: nat,
                  ghost part0: seq<int>, ghost done: seq<int>, ghost from: nat, ghost disk0: seq<Sector>, ghost b0: seq<Byte>)
    returns (first: int, pos: nat, ghost part: seq<int>)
    requires v.Valid() && Exchanged(v.g, part0, from, disk0, b0, v.disk, buf[..], write)
    requires DataSectors(v.g, done + [sector]) && Pending(part0, first0, last, done)
    requires pos0 == from + SECTOR_SIZE * |part0| && from + SECTOR_SIZE * (|done| + 1) <= buf.Length
    modifies v`disk, buf
    ensures v.Valid() && Exchanged(v.g, part, from, disk0, b0, v.disk, buf[..], write)
    ensures pos == from + SECTOR_SIZE * |part| || lastOne
    ensures if lastOne then part == done + [sector] else Pending(part, first, sector, done + [sector])
  {
    PendingNext(v.g, part0, first0, last, done, sector);
    first, pos, part := first0, pos0, part0;
    if first == 0 {
      first := sector;
    }
    if (sector != first && sector != last + 1) || last - first + 1 == MAX_RUN {
      var count := last - first + 1;
      SendRun(v, buf, write, first, count, pos, part, done, from, disk0, b0);
      pos := pos + count * SECTOR_SIZE;
      part := done;
      first := sector;
    }
    assert part + Run(first, sector - first + 1) == done + [sector];
    if lastOne {
      SendRun(v, buf, write, first, sector - first + 1, pos, part, done + [sector], from, disk0, b0);
      part := done + [sector];
    }
  }

  lemma ZeroSector(g: Layout, size: nat)
    requires g.Laid(size)
    ensures 0 < g.Cluster2Sec(0) < g.firstData
  {
    assert g.Span(1) == g.perCluster && g.Span(2) == g.Span(1) + g.perCluster;
  }

  /** What becomes of the pending run when a read meets the end of the chain: the sector number is that of cluster 0,
      below the data area, so the run is sent on its way. */
  method SendRest(v: Volume, buf: array<Byte>, sector: int, first0: int, last: int, pos: nat,
                  ghost part: seq<int>, ghost done: seq<int>, ghost from: nat, ghost disk0: seq<Sector>, ghost b0: seq<Byte>)
    requires v.Valid() && Exchanged(v.g, part, from, disk0, b0, v.disk, buf[..], false)
    requires DataSectors(v.g, done) && Pending(part, first0, last, done) && 0 < sector < v.g.firstData
    requires pos == from + SECTOR_SIZE * |part| && from + SECTOR_SIZE * |done| <= buf.Length
    modifies v`disk, buf
    ensures v.Valid() && Exchanged(v.g, done, from, disk0, b0, v.disk, buf[..], false)
  {
    var first := if first0 == 0 then sector else first0;
    if done != [] {
      RunApart(v.g, part, first0, last - first0 + 1, done);
    }
    if (sector != first && sector != last + 1) || last - first + 1 == MAX_RUN {
      SendRun(v, buf, false, first, last - first + 1, pos, part, done, from, disk0, b0);
    }
  }

  /** The sector the cursor has come to is the file's sector of that number. */
  lemma PlacedSector(g: Layout, chain: seq<int>, cur: Cursor, at: nat)
    requires 1 <= g.perCluster && Placed(g, chain, cur, at) && cur.numsec >= 1
    ensures 1 <= Position(g, cur.numsec, at) <= |g.FileSecs(chain)|
    ensures g.FileSecs(chain)[Position(g, cur.numsec, at) - 1] == cur.sector
  {
    g.FileSecsAt(chain, at, cur.numsec - 1);
  }

  /** A file's sectors are different data sectors. */
  lemma FileIsData(g: Layout, size: nat, links: seq<int>, chain: seq<int>)
    requires g.Laid(size) && IsChain(g, links, chain)
    ensures DataSectors(g, g.FileSecs(chain))
  {
    FileSecsAreData(g, size, links, chain, 0, 0);
  }

  /** A file's sectors are different data sectors, whatever part of the file is taken. */
  lemma FileSecsAreData(g: Layout, size: nat, links: seq<int>, chain: seq<int>, p: int, q: int)
    requires g.Laid(size) && IsChain(g, links, chain) && 0 <= p <= q <= |g.FileSecs(chain)|
    ensures DataSectors(g, g.FileSecs(chain)) && DataSectors(g, g.FileSecs(chain)[p..q])
  {
    ChainIsAcyclic(g, links, chain);
    forall i | 0 <= i < |chain|
      ensures g.InRange(chain[i])
    {
      assert Linked(g, links, chain, i);
    }
    g.FileSecsInjective(size, chain);
    PrefixIsData(g, g.FileSecs(chain), p, q);
  }

  /** The clusters of `chain'` behind those of `chain` were free, and nothing else of the table changed. */
  ghost predicate Grown(g: Layout, links: seq<int>, chain: seq<int>, links': seq<int>, chain': seq<int>) {
    && OwnChange(links, links', chain, chain')
    && chain <= chain'
    && FreeCount(g, links') + |chain'| == FreeCount(g, links) + |chain|
    && forall e | 0 <= e < |links| && links[e] == 0 && links'[e] != 0 :: e in chain'
  }

  lemma GrownByOne(g: Layout, links0: seq<int>, chain0: seq<int>, links: seq<int>, chain: seq<int>,
                   links': seq<int>, chain': seq<int>)
    requires SmallVolume(g) && IsChain(g, links, chain)
    requires Grown(g, links0, chain0, links, chain) && OneMore(g, links, chain, links', chain')
    ensures Grown(g, links0, chain0, links', chain')
  {
    var c := chain'[|chain|];
    AppendMakesChain(g, links, chain, c);
    AppendCounts(g, links, chain, c);
    assert c in chain';
    assert forall e | e in chain :: e in chain';
    assert c !in chain0;
    assert links0[c] == 0;
  }

  /** The handle's saved cursor. */
  ghost function CursorOf(f: FatFile): Cursor
    reads f
  {
    Cursor(f.lastcluster, f.lastsector, f.clusternum, f.sectornum, f.eof)
  }

  /** The handle is between two sectors of its file and knows where. */
  ghost predicate Ready(f: FatFile, v: Volume)
    reads f, v
  {
    f.OnChain(v) && !f.eof && Placed(v.g, f.chain, CursorOf(f), f.at)
  }

  /** Number of the sector the next access will touch. */
  ghost function Next(f: FatFile, v: Volume): int
    reads f, v
  {
    Position(v.g, f.sectornum, f.at)
  }

  /** fat_open: a handle that stands before the first sector of its file. */
  method OpenFile(v: Volume, startcluster: int, ghost chain: seq<int>) returns (f: FatFile)
    requires IsChain(v.g, v.fat, chain) && startcluster == First(chain)
    ensures fresh(f) && f.chain == chain && Ready(f, v) && Next(f, v) == 0
    ensures f.clusternum == 0 && f.at == 0
  {
    f := new FatFile(startcluster, chain);
  }

  /** Growing a file adds sectors behind the ones it had. */
  lemma {:induction false} FileSecsPrefix(g: Layout, chain: seq<int>, chain': seq<int>)
    requires chain <= chain'
    ensures g.FileSecs(chain) <= g.FileSecs(chain')
  {
    if |chain| < |chain'| {
      FileSecsPrefix(g, chain, chain'[..|chain'| - 1]);
    } else {
      assert chain == chain';
    }
  }

  /** One round of the transfer loop: the sectors visited so far, with the one just reached. */
  lemma VisitNext(g: Layout, chain: seq<int>, chain': seq<int>, cur: Cursor, at: nat, nxt: Cursor, at': nat,
                  p: int, i: int)
    requires 1 <= g.perCluster && chain <= chain' && 0 <= p && 0 <= i
    requires Position(g, cur.numsec, at) == p + i <= |g.FileSecs(chain)|
    requires Placed(g, chain', nxt, at') && nxt.numsec >= 1 && OneOn(g, cur, at, nxt, at')
    ensures Position(g, nxt.numsec, at') == p + i + 1 <= |g.FileSecs(chain')|
    ensures |g.FileSecs(chain)| <= |g.FileSecs(chain')|
    ensures g.FileSecs(chain)[p..p + i] == g.FileSecs(chain')[p..p + i]
    ensures g.FileSecs(chain)[p..p + i] + [nxt.sector] == g.FileSecs(chain')[p..p + i + 1]
  {
    OneOnIsNext(g, cur, at, nxt, at');
    PlacedSector(g, chain', nxt, at');
    FileSecsPrefix(g, chain, chain');
    SliceExtends(g.FileSecs(chain), g.FileSecs(chain'), p, p + i);
  }

  lemma SliceExtends(secs: seq<int>, secs': seq<int>, p: int, q: int)
    requires secs <= secs' && 0 <= p <= q <= |secs| && q < |secs'|
    ensures secs[p..q] == secs'[p..q]
    ensures secs[p..q] + [secs'[q]] == secs'[p..q + 1]
  {
  }

  /** How far a file can reach: through its own clusters and the free ones. */
  ghost function Reach(g: Layout, links: seq<int>, chain: seq<int>): nat {
    g.Span(|chain| + FreeCount(g, links))
  }

  lemma ReachKept(g: Layout, links: seq<int>, chain: seq<int>, links': seq<int>, chain': seq<int>)
    requires Grown(g, links, chain, links', chain')
    ensures Reach(g, links', chain') == Reach(g, links, chain)
    ensures Capacity(g, chain') <= Reach(g, links, chain)
    ensures FreeSet(g, links') == {} ==> Capacity(g, chain') == Reach(g, links, chain)
  {
    g.SpanMonotone(|chain'|, |chain'| + FreeCount(g, links'));
  }

  /** One call of fat_readwrite: where it starts and what it starts from. */
  datatype Job = Job(g: Layout, links: seq<int>, chain: seq<int>, disk: seq<Sector>, buf: seq<Byte>,
                     p: int, n: int, from: int, write: bool, ahead: int)

  /** After `i` sectors the cursor is `i` sectors on, in a file that has grown at most by free clusters. */
  ghost predicate Advanced(job: Job, links: seq<int>, chain: seq<int>, cur: Cursor, at: nat, i: int) {
    && 0 <= job.p && 0 <= i
    && Placed(job.g, chain, cur, at) && !cur.eof
    && Position(job.g, cur.numsec, at) == job.p + i <= |job.g.FileSecs(chain)|
    && Grown(job.g, job.links, job.chain, links, chain)
    && (!job.write ==> chain == job.chain && links == job.links)
    && NoMore(job, chain, i)
    && Ahead(job, chain, cur, at)
  }

  /** The cluster number is as far ahead of the cluster as at the start, or one more if the file got its first cluster. */
  ghost predicate Ahead(job: Job, chain: seq<int>, cur: Cursor, at: nat) {
    cur.clusternum - at == job.ahead + (if job.chain == [] && chain != [] then 1 else 0)
  }

  /** No more clusters have been taken than `i` sectors need. */
  ghost predicate NoMore(job: Job, chain: seq<int>, i: int) {
    |chain| > |job.chain| ==> job.g.Span(|chain| - 1) < job.p + i
  }

  /** The file's sectors visited after `i` rounds. */
  ghost function Visited(job: Job, chain: seq<int>, i: int): seq<int>
    requires 0 <= job.p && 0 <= i && job.p + i <= |job.g.FileSecs(chain)|
  {
    job.g.FileSecs(chain)[job.p..job.p + i]
  }

  /** The loop of fat_readwrite after `i` sectors: `part` of them exchanged, the others pending.
      The quantifier keeps the definition folded wherever `Unfold` is not mentioned. */
  ghost predicate Moving(job: Job, links: seq<int>, chain: seq<int>, cur: Cursor, at: nat, i: int,
                         first: int, last: int, pos: int, part: seq<int>)
  {
    forall k {:trigger Unfold(k)} | Unfold(k) :: MovingOpen(job, links, chain, cur, at, i, first, last, pos, part)
  }

  ghost predicate MovingOpen(job: Job, links: seq<int>, chain: seq<int>, cur: Cursor, at: nat, i: int,
                             first: int, last: int, pos: int, part: seq<int>)
  {
    && Advanced(job, links, chain, cur, at, i)
    && (if i < job.n
        then Pending(part, first, last, Visited(job, chain, i)) && pos == job.from + SECTOR_SIZE * |part|
        else part == Visited(job, chain, i))
  }

  /** What a round finds. */
  lemma BeforeRound(job: Job, size: nat, links: seq<int>, chain: seq<int>, cur: Cursor, at: nat, i: int,
                    first: int, last: int, pos: int, part: seq<int>)
    requires job.g.Laid(size) && IsChain(job.g, links, chain)
    requires Moving(job, links, chain, cur, at, i, first, last, pos, part)
    ensures forall t | 0 <= t < |part| :: job.g.firstData <= part[t] && part[t] in job.g.FileSecs(chain)
    ensures MovingOpen(job, links, chain, cur, at, i, first, last, pos, part)
  {
    assert Unfold(0);
    var visited := Visited(job, chain, i);
    FileSecsAreData(job.g, size, links, chain, job.p, job.p + i);
    forall t | 0 <= t < |part|
      ensures job.g.firstData <= part[t] && part[t] in job.g.FileSecs(chain)
    {
      assert part[t] == visited[t] && InData(job.g, visited, t);
      assert visited[t] == job.g.FileSecs(chain)[job.p + t];
    }
  }

  /** Moving the cursor on by one sector grows the file by at most one free cluster. */
  lemma StepGrows(g: Layout, links0: seq<int>, chain0: seq<int>, links: seq<int>, chain: seq<int>,
                  links': seq<int>, chain': seq<int>)
    requires SmallVolume(g) && IsChain(g, links, chain) && Grown(g, links0, chain0, links, chain)
    requires (chain' == chain && links' == links) || OneMore(g, links, chain, links', chain')
    ensures Grown(g, links0, chain0, links', chain') && chain <= chain'
  {
    if chain' != chain {
      GrownByOne(g, links0, chain0, links, chain, links', chain');
    }
  }

  /** A cluster is taken only when the sector to be reached is the first behind the chain. */
  lemma NoMoreNext(job: Job, chain: seq<int>, cur: Cursor, at: nat, i: int, chain': seq<int>)
    requires 1 <= job.g.perCluster && Placed(job.g, chain, cur, at) && NoMore(job, chain, i)
    requires Position(job.g, cur.numsec, at) == job.p + i
    requires chain' == chain || (|chain'| == |chain| + 1 && AtEnd(job.g, chain, cur, at))
    ensures NoMore(job, chain', i + 1)
  {
    EndIsCapacity(job.g, chain, cur, at);
  }

  lemma StepAdvances(job: Job, links: seq<int>, chain: seq<int>, cur: Cursor, at: nat, i: int,
                     links': seq<int>, chain': seq<int>, nxt: Cursor, at': nat)
    requires 1 <= job.g.perCluster && Advanced(job, links, chain, cur, at, i)
    requires Placed(job.g, chain', nxt, at') && !nxt.eof
    requires Position(job.g, nxt.numsec, at') == job.p + i + 1 <= |job.g.FileSecs(chain')|
    requires Grown(job.g, job.links, job.chain, links', chain')
    requires (chain' == chain && links' == links) || (job.write && |chain'| == |chain| + 1 && AtEnd(job.g, chain, cur, at))
    requires nxt.clusternum - at' == cur.clusternum - at + (if chain == [] then 1 else 0)
    requires chain <= chain'
    ensures Advanced(job, links', chain', nxt, at', i + 1)
  {
    NoMoreNext(job, chain, cur, at, i, chain');
  }

  /** What moving the cursor on by one sector leads to. */
  lemma AfterStep(job: Job, size: nat, links: seq<int>, chain: seq<int>, cur: Cursor, at: nat, i: int,
                  links': seq<int>, chain': seq<int>, nxt: Cursor, at': nat)
    requires job.g.Laid(size) && IsChain(job.g, links', chain') && chain <= chain'
    requires Advanced(job, links, chain, cur, at, i)
    requires Placed(job.g, chain', nxt, at') && nxt.numsec >= 1 && OneOn(job.g, cur, at, nxt, at') && !nxt.eof
    requires Grown(job.g, job.links, job.chain, links', chain')
    requires (chain' == chain && links' == links) || (job.write && |chain'| == |chain| + 1 && AtEnd(job.g, chain, cur, at))
    requires nxt.clusternum - at' == cur.clusternum - at + (if chain == [] then 1 else 0)
    ensures Advanced(job, links', chain', nxt, at', i + 1)
    ensures Visited(job, chain', i + 1) == Visited(job, chain, i) + [nxt.sector]
    ensures DataSectors(job.g, Visited(job, chain, i) + [nxt.sector])
  {
    StepVisits(job, size, chain, cur, at, i, links', chain', nxt, at');
    StepAdvances(job, links, chain, cur, at, i, links', chain', nxt, at');
  }

  lemma StepVisits(job: Job, size: nat, chain: seq<int>, cur: Cursor, at: nat, i: int,
                   links': seq<int>, chain': seq<int>, nxt: Cursor, at': nat)
    requires job.g.Laid(size) && IsChain(job.g, links', chain') && chain <= chain' && 0 <= job.p && 0 <= i
    requires Position(job.g, cur.numsec, at) == job.p + i <= |job.g.FileSecs(chain)|
    requires Placed(job.g, chain', nxt, at') && nxt.numsec >= 1 && OneOn(job.g, cur, at, nxt, at')
    ensures Position(job.g, nxt.numsec, at') == job.p + i + 1 <= |job.g.FileSecs(chain')|
    ensures Visited(job, chain', i + 1) == Visited(job, chain, i) + [nxt.sector]
    ensures DataSectors(job.g, Visited(job, chain, i) + [nxt.sector])
  {
    VisitNext(job.g, chain, chain', cur, at, nxt, at', job.p, i);
    FileSecsAreData(job.g, size, links', chain', job.p, job.p + i + 1);
  }

  /** The loop of fat_readwrite has met the end of the chain after `i` sectors, in the `j`-th round at the latest. */
  ghost predicate EndMet(job: Job, links: seq<int>, chain: seq<int>, cur0: Cursor, cur: Cursor, at: nat, i: int, j: int) {
    && i < job.n && i < j && Advanced(job, links, chain, cur0, at, i) && AtEnd(job.g, chain, cur0, at)
    && (if job.write then From(job.g, chain, cur0, cur, at) && cur.eof && FreeSet(job.g, links) == {}
        else cur == Cursor(0, job.g.Cluster2Sec(0), cur0.clusternum + j - i, 1, true))
  }

  /** How the loop ends: all sectors done, or the end of the chain met after `i` of them. A read has then delivered those,
      and has gone on counting rounds up to the `j`-th. */
  ghost predicate Ended(job: Job, links: seq<int>, chain: seq<int>, cur0: Cursor, cur: Cursor, at: nat, i: int, j: int,
                        part: seq<int>) {
    if !cur.eof then
      i == job.n && Advanced(job, links, chain, cur, at, i) && part == Visited(job, chain, i)
    else
      && EndMet(job, links, chain, cur0, cur, at, i, j)
      && (if job.write then forall t | 0 <= t < |part| :: part[t] in job.g.FileSecs(chain)
          else part == Visited(job, chain, i))
  }

  /** The same, folded wherever `Unfold` is not mentioned. */
  ghost predicate HasEnded(job: Job, links: seq<int>, chain: seq<int>, cur0: Cursor, cur: Cursor, at: nat, i: int, j: int,
                           part: seq<int>) {
    forall k {:trigger Unfold(k)} | Unfold(k) :: Ended(job, links, chain, cur0, cur, at, i, j, part)
  }

  lemma PlacedIsNatural(g: Layout, size: nat, links: seq<int>, chain: seq<int>, cur: Cursor, at: nat)
    requires g.Laid(size) && IsChain(g, links, chain) && Placed(g, chain, cur, at)
    ensures 0 <= cur.sector
  {
    if cur.numsec > 0 {
      assert Linked(g, links, chain, at);
      assert g.ClusterInside(chain[at]);
    }
  }

  ghost predicate JobDone(job: Job, part: seq<int>, disk: seq<Sector>, b: seq<Byte>) {
    Exchanged(job.g, part, job.from, job.disk, job.buf, disk, b, job.write)
  }

  /** The same, folded wherever `Unfold` is not mentioned. */
  ghost predicate Held(job: Job, part: seq<int>, disk: seq<Sector>, b: seq<Byte>) {
    forall k {:trigger Unfold(k)} | Unfold(k) :: JobDone(job, part, disk, b)
  }

  lemma HeldIsDone(job: Job, part: seq<int>, disk: seq<Sector>, b: seq<Byte>)
    requires Held(job, part, disk, b)
    ensures JobDone(job, part, disk, b)
  {
    assert Unfold(0);
  }

  /** The first half of a round: reach the next sector. */
  method StepSector(f: FatFile, v: Volume, write: bool, cur: Cursor, ghost job: Job, ghost at: nat, ghost from: Cursor,
                    ghost i: nat, ghost part: seq<int>, ghost b: seq<Byte>)
    returns (nxt: Cursor, full: bool, ghost at': nat)
    requires v.Valid() && f.OnChain(v) && job.g == v.g && job.write == write && i < job.n
    requires Advanced(job, v.fat, f.chain, from, at, i) && From(v.g, f.chain, from, cur, at) && (!write ==> !cur.eof)
    requires JobDone(job, part, v.disk, b)
    requires forall t | 0 <= t < |part| :: v.g.firstData <= part[t] && part[t] in v.g.FileSecs(f.chain)
    requires !write ==> v.fat[0] >= EOF_MARK
    modifies f`firstcluster, f`chain, v`disk, v`slots, v`freecount, v`nextfree, v`fat
    ensures v.Valid() && f.OnChain(v) && (old(v.Counted()) ==> v.Counted()) && JobDone(job, part, v.disk, b)
    ensures full <==> nxt.eof && write
    ensures !write || full ==> f.chain == old(f.chain) && v.fat == old(v.fat)
    ensures nxt.eof ==> EndMet(job, v.fat, f.chain, from, nxt, at, i, i + 1)
    ensures !nxt.eof ==> Advanced(job, v.fat, f.chain, nxt, at', i + 1) && 0 <= nxt.sector
    ensures !nxt.eof ==> Visited(job, f.chain, i + 1) == Visited(job, old(f.chain), i) + [nxt.sector]
    ensures !nxt.eof ==> DataSectors(v.g, Visited(job, old(f.chain), i) + [nxt.sector])
  {
    ghost var fat, chain, disk := v.fat, f.chain, v.disk;
    nxt, full, at' := NextSector(f, v, cur, write, at, from);
    ExchangedBesideFats(v.g, part, job.from, job.disk, job.buf, disk, v.disk, b, write);
    if !nxt.eof {
      StepGrows(v.g, job.links, job.chain, fat, chain, v.fat, f.chain);
      AfterStep(job, |disk|, fat, chain, from, at, i, v.fat, f.chain, nxt, at');
      PlacedIsNatural(v.g, |disk|, v.fat, f.chain, nxt, at');
    }
  }

  /** The round in which a read meets the end of the chain. */
  method EndRead(f: FatFile, v: Volume, buf: array<Byte>, nxt: Cursor, first: int, last: int, pos: nat,
                 ghost job: Job, ghost cur: Cursor, ghost at: nat, ghost i: nat, ghost part0: seq<int>)
    returns (ghost part: seq<int>)
    requires v.Valid() && f.OnChain(v) && job.g == v.g && !job.write
    requires 0 <= job.from && job.from + SECTOR_SIZE * job.n <= buf.Length
    requires MovingOpen(job, v.fat, f.chain, cur, at, i, first, last, pos, part0) && JobDone(job, part0, v.disk, buf[..])
    requires nxt.eof && EndMet(job, v.fat, f.chain, cur, nxt, at, i, i + 1)
    modifies v`disk, buf
    ensures v.Valid() && JobDone(job, part, v.disk, buf[..])
    ensures HasEnded(job, v.fat, f.chain, cur, nxt, at, i, i + 1, part)
  {
    part := Visited(job, f.chain, i);
    ZeroSector(v.g, |v.disk|);
    FileSecsAreData(v.g, |v.disk|, v.fat, f.chain, job.p, job.p + i);
    SendRest(v, buf, nxt.sector, first, last, pos, part0, part, job.from, job.disk, job.buf);
  }

  /** One round of the loop of fat_readwrite. */
  method MoveSector(f: FatFile, v: Volume, buf: array<Byte>, write: bool, lastOne: bool, cur: Cursor,
                    first0: int, last: int, pos0: nat, ghost job: Job, ghost at: nat, ghost from: Cursor, ghost i: nat,
                    ghost part0: seq<int>)
    returns (nxt: Cursor, full: bool, first: int, pos: nat, ghost at': nat, ghost part: seq<int>)
    requires v.Valid() && f.OnChain(v) && job.g == v.g && job.write == write && lastOne == (i == job.n - 1)
    requires i < job.n && 0 <= job.from && job.from + SECTOR_SIZE * job.n <= buf.Length
    requires Moving(job, v.fat, f.chain, from, at, i, first0, last, pos0, part0) && Held(job, part0, v.disk, buf[..])
    requires From(v.g, f.chain, from, cur, at) && (!write ==> !cur.eof && v.fat[0] >= EOF_MARK)
    modifies f`firstcluster, f`chain, v`disk, v`slots, v`freecount, v`nextfree, v`fat, buf
    ensures v.Valid() && f.OnChain(v) && (old(v.Counted()) ==> v.Counted())
    ensures Held(job, part, v.disk, buf[..])
    ensures !nxt.eof ==> Moving(job, v.fat, f.chain, nxt, at', i + 1, first, nxt.sector, pos, part) && 0 <= nxt.sector
    ensures !nxt.eof ==> From(v.g, f.chain, nxt, nxt, at')
    ensures full <==> nxt.eof && write
    ensures full ==> part == part0
    ensures !write ==> v.fat == old(v.fat)
    ensures nxt.eof ==> HasEnded(job, v.fat, f.chain, from, nxt, at, i, i + 1, part)
  {
    HeldIsDone(job, part0, v.disk, buf[..]);
    BeforeRound(job, |v.disk|, v.fat, f.chain, from, at, i, first0, last, pos0, part0);
    ghost var visited := Visited(job, f.chain, i);
    nxt, full, at' := StepSector(f, v, write, cur, job, at, from, i, part0, buf[..]);
    first, pos, part := first0, pos0, part0;
    if !nxt.eof {
      first, pos, part := Schedule(v, buf, write, lastOne, nxt.sector, first0, last, pos0,
                                   part0, visited, job.from, job.disk, job.buf);
      assert MovingOpen(job, v.fat, f.chain, nxt, at', i + 1, first, nxt.sector, pos, part);
    } else if !write {
      part := EndRead(f, v, buf, nxt, first0, last, pos0, job, from, at, i, part0);
    }
  }

  /** Where fat_seek can start from: a remembered cluster number below the chain's length names the remembered cluster. */
  ghost predicate Seekable(f: FatFile, v: Volume)
    reads f, v
  {
    f.OnChain(v) && Remembered(f.chain, f.lastcluster, f.clusternum)
  }

  ghost predicate Remembered(chain: seq<int>, lastcluster: int, clusternum: int) {
    && 0 <= clusternum
    && (0 < clusternum < |chain| ==> lastcluster == chain[clusternum])
    && (clusternum >= |chain| && clusternum > 0 ==>
          lastcluster == 0 || (chain != [] && lastcluster == chain[|chain| - 1]))
  }

  /** Outcome of a transfer that went through: the handle has moved on by `n` sectors. */
  ghost predicate Finished(job: Job, f: FatFile, v: Volume, part: seq<int>)
    reads f, v
  {
    Ready(f, v) && Advanced(job, v.fat, f.chain, CursorOf(f), f.at, job.n) && part == Visited(job, f.chain, job.n)
  }

  /** What it means that all sectors have been done, ... */
  lemma AllDone(job: Job, links: seq<int>, chain: seq<int>, cur: Cursor, at: nat)
    requires 1 <= job.g.perCluster && Advanced(job, links, chain, cur, at, job.n)
    ensures job.p + job.n <= Reach(job.g, job.links, job.chain)
    ensures !job.write ==> job.p + job.n <= Capacity(job.g, job.chain)
    ensures Remembered(chain, cur.cluster, cur.clusternum)
  {
    EndIsCapacity(job.g, chain, cur, at);
    ReachKept(job.g, job.links, job.chain, links, chain);
  }

  /** ... that a write has found the volume full, ... */
  lemma WriteStopped(job: Job, links: seq<int>, chain: seq<int>, cur0: Cursor, cur: Cursor, at: nat, i: int, j: int)
    requires 1 <= job.g.perCluster && job.write && EndMet(job, links, chain, cur0, cur, at, i, j)
    ensures job.p + job.n > Reach(job.g, job.links, job.chain)
    ensures Grown(job.g, job.links, job.chain, links, chain) && Remembered(chain, cur.cluster, cur.clusternum)
  {
    EndIsCapacity(job.g, chain, cur0, at);
    ReachKept(job.g, job.links, job.chain, links, chain);
  }

  /** ... and that a read has come to the end of the file. */
  lemma ReadStopped(job: Job, links: seq<int>, chain: seq<int>, cur0: Cursor, cur: Cursor, at: nat, i: int, j: int,
                    part: seq<int>)
    requires 1 <= job.g.perCluster && !job.write && EndMet(job, links, chain, cur0, cur, at, i, j)
    requires part == Visited(job, chain, i)
    ensures job.p + job.n > Capacity(job.g, job.chain) && chain == job.chain && links == job.links
    ensures PastEnd(job, part) && cur == Stray(job, j) && (job.n == 1 ==> part == [])
    ensures Remembered(chain, cur.cluster, cur.clusternum)
  {
    EndIsCapacity(job.g, chain, cur0, at);
  }

  /** What the end of the loop means for the caller. */
  lemma Outcome(job: Job, links: seq<int>, chain: seq<int>, cur0: Cursor, cur: Cursor, at: nat, i: int, j: int, part: seq<int>)
    requires 1 <= job.g.perCluster && 0 <= job.n
    requires HasEnded(job, links, chain, cur0, cur, at, i, j, part)
    ensures Grown(job.g, job.links, job.chain, links, chain)
    ensures !job.write ==> chain == job.chain && links == job.links
    ensures job.write ==> (cur.eof <==> job.p + job.n > Reach(job.g, job.links, job.chain))
    ensures !job.write ==> (cur.eof <==> job.p + job.n > Capacity(job.g, job.chain))
    ensures cur.eof ==> i < job.n && (job.write ==> FreeSet(job.g, links) == {})
    ensures cur.eof && job.write ==> forall t | 0 <= t < |part| :: part[t] in job.g.FileSecs(chain)
    ensures cur.eof && job.write ==> From(job.g, chain, cur0, cur, at)
    ensures cur.eof && !job.write ==> PastEnd(job, part) && cur == Stray(job, j) && (job.n == 1 ==> part == [])
    ensures !cur.eof ==> i == job.n && Advanced(job, links, chain, cur, at, i) && part == Visited(job, chain, i)
    ensures Remembered(chain, cur.cluster, cur.clusternum)
  {
    assert Ended(job, links, chain, cur0, cur, at, i, j, part) by {
      assert Unfold(0);
    }
    if !cur.eof {
      AllDone(job, links, chain, cur, at);
    } else if job.write {
      WriteStopped(job, links, chain, cur0, cur, at, i, j);
    } else {
      ReadStopped(job, links, chain, cur0, cur, at, i, j, part);
    }
  }

  /** A read that runs past the end has exchanged the sectors up to there. */
  ghost predicate PastEnd(job: Job, part: seq<int>) {
    0 <= job.p <= |job.g.FileSecs(job.chain)| && part == job.g.FileSecs(job.chain)[job.p..]
  }

  /** The cursor after `j` rounds of a read that ran past the end: no cluster, and the rounds behind the end counted as
      clusters. */
  ghost function Stray(job: Job, j: int): Cursor {
    Cursor(0, job.g.Cluster2Sec(0), job.ahead + (if job.chain == [] then 0 else |job.chain| - 1)
                                    + j - (Capacity(job.g, job.chain) - job.p), 1, true)
  }

  lemma MovingBegins(job: Job, size: nat, links: seq<int>, chain: seq<int>, cur: Cursor, at: nat, from: int)
    requires job.g.Laid(size) && IsChain(job.g, links, chain) && Advanced(job, links, chain, cur, at, 0) && from == job.from
    ensures Moving(job, links, chain, cur, at, 0, 0, 0, from, []) && 0 <= cur.sector
  {
    assert MovingOpen(job, links, chain, cur, at, 0, 0, 0, from, []);
    PlacedIsNatural(job.g, size, links, chain, cur, at);
  }

  lemma MovingEnds(job: Job, links: seq<int>, chain: seq<int>, cur0: Cursor, cur: Cursor, at: nat, i: int,
                   first: int, last: int, pos: int, part: seq<int>)
    requires Moving(job, links, chain, cur, at, i, first, last, pos, part) && i == job.n
    ensures HasEnded(job, links, chain, cur0, cur, at, i, i, part)
  {
    assert Unfold(0);
  }

  /** A round behind the end. */
  lemma StillEnded(job: Job, links: seq<int>, chain: seq<int>, cur0: Cursor, cur: Cursor, at: nat, i: int, j: int,
                   part: seq<int>)
    requires HasEnded(job, links, chain, cur0, cur, at, i, j, part) && cur.eof && !job.write
    ensures HasEnded(job, links, chain, cur0, cur.(clusternum := cur.clusternum + 1), at, i, j + 1, part)
    ensures cur.cluster == 0 && cur.sector == job.g.Cluster2Sec(0) && cur.numsec == 1
  {
    assert Unfold(0);
  }

  /** The rounds of a read behind the end of the chain: each looks for a cluster behind cluster 0, finds none and is
      counted. */
  method CountOn(v: Volume, n: nat, i0: nat, cur0: Cursor, ghost job: Job, ghost chain: seq<int>, ghost before: Cursor,
                 ghost at: nat, ghost k: int, ghost part: seq<int>)
    returns (cur: Cursor, i: int)
    requires v.Valid() && v.fat[0] >= EOF_MARK && i0 <= n && cur0.eof && !job.write && job.g == v.g
    requires HasEnded(job, v.fat, chain, before, cur0, at, k, i0, part) && 0 <= cur0.sector
    modifies v`disk, v`slots
    ensures v.Valid() && v.fat == old(v.fat) && FatsOnly(v.g, old(v.disk), v.disk)
    ensures HasEnded(job, v.fat, chain, before, cur, at, k, n, part) && i == n && cur.eof
  {
    cur, i := cur0, i0;
    while i < n && cur.sector > -1
      invariant v.Valid() && v.fat == old(v.fat) && FatsOnly(v.g, old(v.disk), v.disk)
      invariant i0 <= i <= n && 0 <= cur.sector && cur.eof
      invariant HasEnded(job, v.fat, chain, before, cur, at, k, i, part)
    {
      StillEnded(job, v.fat, chain, before, cur, at, k, i, part);
      var cluster := v.GetNextCluster(cur.cluster);
      cur := Cursor(cluster, v.g.Cluster2Sec(cluster), cur.clusternum + 1, 1, cur.eof);
      i := i + 1;
    }
  }

  /** The rest of a read's rounds change nothing but the cursor. */
  method ReadOn(f: FatFile, v: Volume, n: nat, i0: nat, cur0: Cursor, ghost job: Job, ghost before: Cursor,
                ghost at: nat, ghost k: int, ghost part: seq<int>, ghost b: seq<Byte>)
    returns (cur: Cursor, i: int)
    requires v.Valid() && f.OnChain(v) && v.fat[0] >= EOF_MARK && i0 <= n && cur0.eof && !job.write && job.g == v.g
    requires HasEnded(job, v.fat, f.chain, before, cur0, at, k, i0, part) && Held(job, part, v.disk, b)
    modifies v`disk, v`slots
    ensures v.Valid() && f.OnChain(v) && v.fat == old(v.fat) && Held(job, part, v.disk, b)
    ensures HasEnded(job, v.fat, f.chain, before, cur, at, k, n, part) && i == n && cur.eof
  {
    ghost var disk := v.disk;
    HeldIsDone(job, part, disk, b);
    StillEnded(job, v.fat, f.chain, before, cur0, at, k, i0, part);
    ZeroSector(v.g, |disk|);
    ReadPartIsData(job, |disk|, v.fat, f.chain, before, cur0, at, k, i0, part);
    cur, i := CountOn(v, n, i0, cur0, job, f.chain, before, at, k, part);
    ExchangedBesideFats(v.g, part, job.from, job.disk, job.buf, disk, v.disk, b, false);
  }

  lemma ReadPartIsData(job: Job, size: nat, links: seq<int>, chain: seq<int>, cur0: Cursor, cur: Cursor, at: nat, i: int,
                       j: int, part: seq<int>)
    requires HasEnded(job, links, chain, cur0, cur, at, i, j, part) && cur.eof && !job.write
    requires job.g.Laid(size) && IsChain(job.g, links, chain)
    ensures forall t | 0 <= t < |part| :: job.g.firstData <= part[t]
  {
    assert Unfold(0);
    FileSecsAreData(job.g, size, links, chain, job.p, job.p + i);
    forall t | 0 <= t < |part|
      ensures job.g.firstData <= part[t]
    {
      assert InData(job.g, part, t);
    }
  }

  /** One round of the loop; if it meets the end of the chain in a read, with the rounds behind it. */
  method MoveOn(f: FatFile, v: Volume, buf: array<Byte>, write: bool, n: nat, cur: Cursor, first0: int, last: int,
                pos0: nat, ghost job: Job, ghost at: nat, ghost start: Cursor, i: nat, ghost part0: seq<int>)
    returns (nxt: Cursor, j: nat, first: int, pos: nat, ghost at': nat, ghost part: seq<int>)
    requires v.Valid() && f.OnChain(v) && job.g == v.g && job.write == write && n == job.n && i < n
    requires 0 <= job.from && job.from + SECTOR_SIZE * n <= buf.Length && (!write ==> v.fat[0] >= EOF_MARK)
    requires Moving(job, v.fat, f.chain, start, at, i, first0, last, pos0, part0) && Held(job, part0, v.disk, buf[..])
    requires From(v.g, f.chain, start, cur, at) && (!write ==> !cur.eof)
    modifies f`firstcluster, f`chain, v`disk, v`slots, v`freecount, v`nextfree, v`fat, buf
    ensures v.Valid() && f.OnChain(v) && (old(v.Counted()) ==> v.Counted()) && Held(job, part, v.disk, buf[..])
    ensures !write ==> v.fat == old(v.fat)
    ensures !nxt.eof ==> j == i + 1 && 0 <= nxt.sector
    ensures !nxt.eof ==> Moving(job, v.fat, f.chain, nxt, at', j, first, nxt.sector, pos, part)
    ensures !nxt.eof ==> From(v.g, f.chain, nxt, nxt, at')
    ensures nxt.eof ==> HasEnded(job, v.fat, f.chain, start, nxt, at, i, j, part)
    ensures nxt.eof ==> if write then part == part0 else j == n
  {
    var full;
    nxt, full, first, pos, at', part := MoveSector(f, v, buf, write, i == n - 1, cur, first0, last, pos0, job, at, start, i,
                                                   part0);
    j := i + 1;
    if !nxt.eof || write {
      return;
    }
    nxt, j := ReadOn(f, v, n, j, nxt, job, start, at, i, part, buf[..]);
  }

  /** The loop of fat_readwrite; it goes on from where `start` stands for. */
  method MoveSectors(f: FatFile, v: Volume, buf: array<Byte>, write: bool, n: nat, start: Cursor, from: nat,
                     ghost job: Job, ghost at0: nat, ghost begin: Cursor)
    returns (cur: Cursor, i: int, ghost last0: Cursor, ghost at: nat, ghost k: int, ghost part: seq<int>)
    requires v.Valid() && f.OnChain(v) && job.g == v.g && job.write == write && n == job.n && from == job.from
    requires from + SECTOR_SIZE * n <= buf.Length
    requires Advanced(job, v.fat, f.chain, begin, at0, 0) && JobDone(job, [], v.disk, buf[..])
    requires From(v.g, f.chain, begin, start, at0) && (start.eof ==> write && n > 0)
    requires !write ==> v.fat[0] >= EOF_MARK
    modifies f`firstcluster, f`chain, v`disk, v`slots, v`freecount, v`nextfree, v`fat, buf
    ensures v.Valid() && f.OnChain(v) && (old(v.Counted()) ==> v.Counted())
    ensures JobDone(job, part, v.disk, buf[..])
    ensures HasEnded(job, v.fat, f.chain, last0, cur, at, k, i, part)
    ensures !cur.eof || !write ==> i == n
    ensures 0 <= k && (write && cur.eof && k == 0 ==> part == [])
  {
    cur, at, last0, part := start, at0, begin, [];
    var first, last, pos := 0, 0, from;
    i := 0;
    MovingBegins(job, |v.disk|, v.fat, f.chain, begin, at, from);
    while i < n && cur.sector > -1
      invariant 0 <= i <= n && 0 <= cur.sector && (i == 0 ==> part == [])
      invariant v.Valid() && f.OnChain(v) && (old(v.Counted()) ==> v.Counted()) && (!write ==> v.fat == old(v.fat))
      invariant Held(job, part, v.disk, buf[..])
      invariant Moving(job, v.fat, f.chain, last0, at, i, first, last, pos, part) && From(v.g, f.chain, last0, cur, at)
      invariant cur.eof ==> write && i == 0 && n > 0
    {
      k := i;
      ghost var at1 := at;
      cur, i, first, pos, at, part := MoveOn(f, v, buf, write, n, cur, first, last, pos, job, at, last0, i, part);
      if cur.eof {
        at := at1;
        HeldIsDone(job, part, v.disk, buf[..]);
        return;
      }
      last0 := cur;
      last := cur.sector;
    }
    k := i;
    MovingEnds(job, v.fat, f.chain, last0, cur, at, i, first, last, pos, part);
    HeldIsDone(job, part, v.disk, buf[..]);
  }

  method SaveCursor(f: FatFile, v: Volume, cur: Cursor, ghost at: nat)
    requires f.OnChain(v) && Remembered(f.chain, cur.cluster, cur.clusternum)
    modifies f`lastcluster, f`lastsector, f`clusternum, f`sectornum, f`eof, f`at
    ensures CursorOf(f) == cur && f.at == at && Seekable(f, v)
    ensures !cur.eof && Placed(v.g, f.chain, cur, at) ==> Ready(f, v)
    ensures forall from: Cursor | cur.eof && From(v.g, f.chain, from, cur, at) :: Stopped(f, v)
  {
    f.lastcluster, f.lastsector, f.clusternum, f.sectornum, f.eof, f.at :=
      cur.cluster, cur.sector, cur.clusternum, cur.numsec, cur.eof, at;
  }

  /** The cursor that a transfer goes on from. */
  ghost function Begin(f: FatFile, v: Volume): Cursor
    reads f, v
  {
    if f.eof then CursorOf(f).(numsec := if f.chain == [] then 0 else v.g.perCluster, eof := false) else CursorOf(f)
  }

  /** The handle's last transfer was a write that found the disk full; the next one goes on at the end of the chain. */
  ghost predicate Stopped(f: FatFile, v: Volume)
    reads f, v
  {
    f.OnChain(v) && f.eof && From(v.g, f.chain, Begin(f, v), CursorOf(f), f.at)
  }

  /** Number of the sector that a transfer begins with. */
  ghost function Start(f: FatFile, v: Volume): int
    reads f, v
  {
    if f.eof then Capacity(v.g, f.chain) else Next(f, v)
  }

  lemma StoppedAtEnd(f: FatFile, v: Volume)
    requires Stopped(f, v) && 1 <= v.g.perCluster
    ensures Position(v.g, Begin(f, v).numsec, f.at) == Capacity(v.g, f.chain) && Seekable(f, v)
  {
    EndIsCapacity(v.g, f.chain, Begin(f, v), f.at);
  }

  lemma JobBegins(job: Job, cur: Cursor, at: nat)
    requires 1 <= job.g.perCluster && Placed(job.g, job.chain, cur, at) && !cur.eof
    requires job.p == Position(job.g, cur.numsec, at) && job.ahead == cur.clusternum - at
    requires 0 <= job.from <= |job.buf|
    ensures Advanced(job, job.links, job.chain, cur, at, 0) && JobDone(job, [], job.disk, job.buf)
  {
    EndIsCapacity(job.g, job.chain, cur, at);
  }

  /** A transfer that begins between two sectors of the file, or behind its last one. */
  method Exchange(f: FatFile, v: Volume, n: nat, buf: array<Byte>, from: nat, write: bool, ghost job: Job)
    returns (r: int, ghost part: seq<int>)
    requires v.Valid() && (Ready(f, v) || (write && n > 0 && Stopped(f, v))) && from + SECTOR_SIZE * n <= buf.Length
    requires job == Job(v.g, v.fat, f.chain, v.disk, buf[..], Start(f, v), n, from, write, f.clusternum - f.at)
    requires !write ==> v.fat[0] >= EOF_MARK
    modifies f, v`disk, v`slots, v`freecount, v`nextfree, v`fat, buf
    ensures v.Valid() && (old(v.Counted()) ==> v.Counted()) && JobDone(job, part, v.disk, buf[..])
    ensures f.eof <==> job.p + n > if write then Reach(job.g, job.links, job.chain) else Capacity(job.g, job.chain)
    ensures r == if !f.eof then n else if write then -2 else n - 1
    ensures !f.eof ==> Finished(job, f, v, part)
    ensures Seekable(f, v) && Grown(job.g, job.links, job.chain, v.fat, f.chain)
    ensures !write ==> v.fat == job.links && f.chain == job.chain
    ensures f.eof && write ==> FreeSet(job.g, v.fat) == {} && Stopped(f, v)
    ensures f.eof && write ==> forall t | 0 <= t < |part| :: part[t] in job.g.FileSecs(f.chain)
    ensures f.eof && !write ==> PastEnd(job, part) && CursorOf(f) == Stray(job, n)
    ensures f.eof ==> n > 0 && (n == 1 ==> part == [])
  {
    var cur := Cursor(f.lastcluster, f.lastsector, f.clusternum, f.sectornum, f.eof);
    ghost var begin := Begin(f, v);
    if f.eof {
      StoppedAtEnd(f, v);
    }
    JobBegins(job, begin, f.at);
    var i;
    ghost var last0, at, k;
    cur, i, last0, at, k, part := MoveSectors(f, v, buf, write, n, cur, from, job, f.at, begin);
    Outcome(job, v.fat, f.chain, last0, cur, at, k, i, part);
    SaveCursor(f, v, cur, at);
    if cur.eof && write {
      i := -1;
    }
    if cur.eof {
      i := i - 1;
    }
    r := i;
  }

  /** Move `n` sectors between the buffer and the file, from the handle's position on, in merged runs of at most
      256 sectors. A write goes through just when the file can reach that far, and takes no more clusters than it
      needs; one that does not stops at the end of the chain, where the next one goes on. A read past the end of the
      chain delivers the sectors up to there and reports `n - 1`, however many that were. */
  method FatReadWrite(f: FatFile, v: Volume, n: nat, buf: array<Byte>, from: nat, write: bool)
    returns (r: int, ghost job: Job, ghost part: seq<int>)
    requires v.Valid() && ((f.eof && !write) || Ready(f, v) || Stopped(f, v)) && from + SECTOR_SIZE * n <= buf.Length
    requires !write ==> v.fat[0] >= EOF_MARK
    modifies f, v`disk, v`slots, v`freecount, v`nextfree, v`fat, buf
    ensures v.Valid() && (old(v.Counted()) ==> v.Counted())
    ensures job == Job(v.g, old(v.fat), old(f.chain), old(v.disk), old(buf[..]), old(Start(f, v)), n, from, write,
                       old(f.clusternum) - old(f.at))
    ensures JobDone(job, part, v.disk, buf[..])
    ensures old(f.eof) && (!write || n == 0) ==> part == [] && v.fat == old(v.fat) && unchanged(f)
    ensures old(f.eof) && !write ==> r == 0
    ensures !old(f.eof) && !write && old(Start(f, v)) + n <= Capacity(v.g, old(f.chain)) ==> r == n && !f.eof
    ensures !old(f.eof) && !write && old(Start(f, v)) + n > Capacity(v.g, old(f.chain)) ==>
      r == n - 1 && f.eof && PastEnd(job, part) && CursorOf(f) == Stray(job, n)
    ensures write ==> r == if !f.eof then n else if n == 0 then -1 else -2
    ensures write && (n > 0 || !old(f.eof)) ==>
      (!f.eof <==> old(Start(f, v)) + n <= Reach(v.g, old(v.fat), old(f.chain)))
    ensures !f.eof ==> Finished(job, f, v, part)
    ensures write || !old(f.eof) ==> Seekable(f, v) && Grown(v.g, old(v.fat), old(f.chain), v.fat, f.chain)
    ensures !write ==> v.fat == old(v.fat) && f.chain == old(f.chain)
    ensures f.eof && write ==> Stopped(f, v) && (n > 0 ==> FreeSet(v.g, v.fat) == {})
    ensures f.eof && write ==> forall t | 0 <= t < |part| :: part[t] in v.g.FileSecs(f.chain)
    ensures f.eof && n == 1 ==> part == []
    ensures f.eof && !old(f.eof) ==> n > 0
  {
    job := Job(v.g, v.fat, f.chain, v.disk, buf[..], Start(f, v), n, from, write, f.clusternum - f.at);
    part := [];
    r := 0;
    if f.eof && !write {
      return;
    }
    if f.eof && n == 0 {
      StoppedAtEnd(f, v);
      return -1, job, part;    // no round is made, and the count is one less because of the flag
    }
    r, part := Exchange(f, v, n, buf, from, write, job);
  }

  /** Splitting a sector number by the cluster size finds its cluster. */
  lemma SplitPosition(g: Layout, q: nat, n: nat)
    requires 1 <= g.perCluster
    ensures g.Span(q / g.perCluster) + q % g.perCluster == q
    ensures 0 <= q % g.perCluster < g.perCluster
    ensures q / g.perCluster < n <==> q < g.Span(n)
  {
    var i := q / g.perCluster;
    g.SpanIsProduct(i);
    assert q == g.perCluster * i + q % g.perCluster;
    if i < n {
      g.SpanMonotone(i, n);
    } else {
      g.SpanMonotone(n, i);
    }
  }

  /** Where `steps` links lead from the `k`-th cluster (or from no cluster, `k == |chain|`); 0 beyond the chain. */
  method FollowChain(f: FatFile, v: Volume, start: int, steps: int, ghost k: nat) returns (cluster: int)
    requires v.Valid() && f.OnChain(v) && v.fat[0] >= EOF_MARK && 0 <= steps
    requires k <= |f.chain| && start == At(f.chain, k)
    modifies v`disk, v`slots
    ensures v.Valid() && v.fat == old(v.fat) && FatsOnly(v.g, old(v.disk), v.disk)
    ensures k < |f.chain| ==> cluster == At(f.chain, k + steps)
    ensures k == |f.chain| ==> cluster == 0
    ensures cluster == 0 ==> steps > 0 || k == |f.chain|
    ensures steps == 0 ==> cluster == start
  {
    cluster := start;
    for i := 0 to steps
      invariant v.Valid() && v.fat == old(v.fat) && FatsOnly(v.g, old(v.disk), v.disk)
      invariant if k < |f.chain| then k + i < |f.chain| && cluster == f.chain[k + i] else i == 0 && cluster == 0
    {
      if k < |f.chain| {
        assert Linked(v.g, v.fat, f.chain, k + i);
      }
      cluster := v.GetNextCluster(cluster);
      assert k + i + 1 < |f.chain| ==> Linked(v.g, v.fat, f.chain, k + i + 1);
      if cluster == 0 {
        return;
      }
    }
    assert k < |f.chain| ==> Linked(v.g, v.fat, f.chain, k + steps);
  }

  /** A seek to the `q`-th cluster, which the file does not have, follows no link and so does not meet the end. */
  ghost predicate Unnoticed(chain: seq<int>, clusternum: int, q: int) {
    (q == clusternum && clusternum >= |chain|) || (chain == [] && q == 0)
  }

  /** The cluster with sector `before` of the file, looked for from the remembered cluster on if that is not behind it. */
  method FindSector(f: FatFile, v: Volume, before: nat)
    returns (cluster: int, clusternum: nat, sectornum: int, found: bool)
    requires v.Valid() && Seekable(f, v) && v.fat[0] >= EOF_MARK
    modifies v`disk, v`slots
    ensures v.Valid() && v.fat == old(v.fat) && FatsOnly(v.g, old(v.disk), v.disk)
    ensures clusternum == before / v.g.perCluster && sectornum == before % v.g.perCluster
    ensures before < Capacity(v.g, f.chain) ==> found && clusternum < |f.chain| && cluster == f.chain[clusternum]
    ensures before >= Capacity(v.g, f.chain) ==>
      (found <==> Unnoticed(f.chain, f.clusternum, clusternum))
    ensures found ==> Remembered(f.chain, cluster, clusternum)
  {
    SplitPosition(v.g, before, |f.chain|);
    cluster, clusternum, sectornum := f.firstcluster, before / v.g.perCluster, before % v.g.perCluster;
    var numclusters: int := clusternum;
    ghost var k := 0;
    if f.clusternum != 0 && clusternum >= f.clusternum {
      cluster := f.lastcluster;
      numclusters := numclusters - f.clusternum;
      k := if f.clusternum < |f.chain| then f.clusternum else if f.lastcluster == 0 then |f.chain| else |f.chain| - 1;
    }
    assert clusternum < |f.chain| ==> k + numclusters == clusternum && Linked(v.g, v.fat, f.chain, clusternum);
    var steps := numclusters;
    cluster := FollowChain(f, v, cluster, steps, k);
    found := cluster != 0 || steps == 0;
  }

  /** Position the handle before sector `s` of the file, wherever it stood. For a target inside the file, starting from
      the remembered cluster makes no difference. A target beyond the file is reported, except when the remembered
      cluster number already is beyond the chain and equals the target's. Either way the handle can seek again. */
  method FatSeek(f: FatFile, v: Volume, s: nat) returns (r: int)
    requires v.Valid() && Seekable(f, v) && v.fat[0] >= EOF_MARK
    modifies f`lastcluster, f`lastsector, f`clusternum, f`sectornum, f`eof, f`at, v`disk, v`slots
    ensures v.Valid() && v.fat == old(v.fat) && FatsOnly(v.g, old(v.disk), v.disk) && !f.eof
    ensures s <= Capacity(v.g, f.chain) ==> r == 0 && Ready(f, v) && Next(f, v) == s
    ensures s > Capacity(v.g, f.chain) ==>
      (r == 0 <==> Unnoticed(f.chain, old(f.clusternum), (s - 1) / v.g.perCluster))
    ensures Seekable(f, v)
    ensures r != 0 ==> r == -1 && CursorOf(f) == old(CursorOf(f)).(eof := false) && f.at == old(f.at)
  {
    var cluster, clusternum, sectornum, sector := f.firstcluster, 0, -1, 0;
    f.eof := false;
    if s > 0 {
      var found;
      SplitPosition(v.g, s - 1, |f.chain|);
      cluster, clusternum, sectornum, found := FindSector(f, v, s - 1);
      if !found {
        return -1;
      }
      sector := v.g.Cluster2Sec(cluster) + sectornum;
    }
    f.lastcluster, f.lastsector, f.clusternum, f.sectornum, f.at := cluster, sector, clusternum, sectornum + 1, clusternum;
    return 0;
  }
}
