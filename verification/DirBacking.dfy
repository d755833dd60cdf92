/** A directory is a file of the volume: what fat_seek and fat_readwrite with one sector do to it. */
module DirBacking {
  import opened Sectors
  import opened Geometry
  import opened FatTable
  import opened Chains
  import opened FatFiles
  import opened FatIo
  import opened FileContents
  import ByteFile
  import Directories

  const SLOT_SIZE := 32

  type DirSector = Directories.DirSector

  /** The slots in a sector. */
  function SlotsIn(s: Sector): DirSector {
    seq(Directories.SLOTS, (i: int) requires 0 <= i < Directories.SLOTS => s[SLOT_SIZE * i..SLOT_SIZE * i + SLOT_SIZE])
  }

  /** Byte `x` of a sector is byte `x % 32` of slot `x / 32`. */
  lemma ByteInSlot(s: Sector, x: nat)
    requires x < 512
    ensures SlotsIn(s)[x / 32][x % 32] == s[x]
  {
    assert x == 32 * (x / 32) + x % 32;
  }

  /** The slots are all there is to a sector. */
  lemma SlotsDecide(s: Sector, t: Sector)
    requires SlotsIn(s) == SlotsIn(t)
    ensures s == t
  {
    forall x | 0 <= x < SECTOR_SIZE
      ensures s[x] == t[x]
    {
      var i, k := x / SLOT_SIZE, x % SLOT_SIZE;
      assert SlotsIn(s)[i][k] == s[x] && SlotsIn(t)[i][k] == t[x];
    }
  }

  function SectorAt(disk: seq<Sector>, s: int): Sector {
    if 0 <= s < |disk| then disk[s] else seq(SECTOR_SIZE, (i: int) => 0)
  }

  /** What is in the sectors of a file. */
  ghost function Listing(g: Layout, disk: seq<Sector>, secs: seq<int>): (r: seq<DirSector>)
    ensures |r| == |secs|
  {
    seq(|secs|, (k: int) requires 0 <= k < |secs| => SlotsIn(SectorAt(disk, g.start + secs[k])))
  }

  /** The state of a directory: its sectors, the next one to be accessed, whether the end has been met since the last
      seek, and how many clusters can still be had. */
  datatype View = View(sectors: seq<DirSector>, pos: int, eof: bool, room: nat)

  ghost function Dir(f: FatFile, v: Volume): View
    reads f, v
  {
    var secs := v.g.FileSecs(f.chain);
    View(Listing(v.g, v.disk, secs), if f.eof then |secs| else Next(f, v), f.eof, FreeCount(v.g, v.fat))
  }

  /** The file is a directory's, and positioned between two of its sectors or at its end. */
  ghost predicate Backed(f: FatFile, v: Volume)
    reads f, v
  {
    v.Valid() && v.fat[0] >= EOF_MARK && f.chain != [] && Seekable(f, v) && (f.eof || Ready(f, v))
  }

  /** A directory is made of whole clusters, and the position is inside it. */
  lemma BackedIsValid(f: FatFile, v: Volume)
    requires Backed(f, v)
    ensures 0 <= Dir(f, v).pos <= |Dir(f, v).sectors| && |Dir(f, v).sectors| % v.g.perCluster == 0
    ensures Dir(f, v).eof ==> Dir(f, v).pos == |Dir(f, v).sectors|
  {
    v.g.SpanIsProduct(|f.chain|);
    Directories.Multiple(v.g.Span(|f.chain|), v.g.perCluster, |f.chain|);
    if !f.eof {
      EndIsCapacity(v.g, f.chain, CursorOf(f), f.at);
    }
  }

  /** Data sectors that an exchange does not write hold what they held. */
  lemma ListingKept(g: Layout, part: seq<int>, from: int, d0: seq<Sector>, b0: seq<Byte>, d1: seq<Sector>, b: seq<Byte>,
                    write: bool, secs: seq<int>, k: int)
    requires Exchanged(g, part, from, d0, b0, d1, b, write) && DataSectors(g, secs) && 0 <= k < |secs|
    requires write ==> secs[k] !in part
    ensures SectorAt(d1, g.start + secs[k]) == SectorAt(d0, g.start + secs[k])
  {
    assert InData(g, secs, k);
    assert DiskKept(g, part, write, g.start + secs[k]);
  }

  /** Reading leaves a directory alone, and delivers a sector of it. */
  lemma ReadLists(job: Job, part: seq<int>, disk: seq<Sector>, b: seq<Byte>)
    requires JobDone(job, part, disk, b) && !job.write && job.g.Laid(|disk|) && IsChain(job.g, job.links, job.chain)
    ensures var secs := job.g.FileSecs(job.chain);
      Listing(job.g, disk, secs) == Listing(job.g, job.disk, secs)
    ensures job.from == 0 && |b| == SECTOR_SIZE && |part| == 1 ==> b == SectorAt(disk, job.g.start + part[0])
  {
    var secs := job.g.FileSecs(job.chain);
    FileIsData(job.g, |disk|, job.links, job.chain);
    forall k | 0 <= k < |secs|
      ensures SectorAt(disk, job.g.start + secs[k]) == SectorAt(job.disk, job.g.start + secs[k])
    {
      ListingKept(job.g, part, job.from, job.disk, job.buf, disk, b, false, secs, k);
    }
    if job.from == 0 && |b| == SECTOR_SIZE && |part| == 1 {
      var whole := BufSector(b, 0, 0);
      assert whole == b;
    }
  }

  /** Reading concerns no other file. */
  lemma ReadIsOwn(job: Job, part: seq<int>, disk: seq<Sector>, b: seq<Byte>)
    requires JobDone(job, part, disk, b) && !job.write && IsChain(job.g, job.links, job.chain)
    ensures OnlyThisFile(job.g, job.links, job.chain, job.disk, job.links, job.chain, disk)
  {
    var secs := job.g.FileSecs(job.chain);
    forall s | 0 <= s < |disk| && DiskKept(job.g, secs, true, s)
      ensures disk[s] == job.disk[s]
    {
      assert DiskKept(job.g, part, false, s);
    }
    OneOperation(job.g, job.links, job.chain, job.disk, job.links, job.chain, disk);
  }

  /** A write that found the disk full leaves a directory alone. */
  lemma NothingLists(job: Job, disk: seq<Sector>, b: seq<Byte>) returns (junk: seq<DirSector>)
    requires JobDone(job, [], disk, b) && job.write && job.g.Laid(|disk|) && IsChain(job.g, job.links, job.chain)
    ensures var secs := job.g.FileSecs(job.chain);
      b == job.buf && Listing(job.g, disk, secs) == Listing(job.g, job.disk, secs)
    ensures |junk| == job.g.perCluster
  {
    var secs := job.g.FileSecs(job.chain);
    ByteFile.WriteKeepsBuffer(job, [], disk, b);
    FileIsData(job.g, |disk|, job.links, job.chain);
    forall k | 0 <= k < |secs|
      ensures SectorAt(disk, job.g.start + secs[k]) == SectorAt(job.disk, job.g.start + secs[k])
    {
      ListingKept(job.g, [], job.from, job.disk, job.buf, disk, b, true, secs, k);
    }
    junk := seq(job.g.perCluster, (i: int) => Directories.EmptySector());
  }

  /** Position a directory; inside it this cannot fail. */
  method SeekDir(f: FatFile, v: Volume, n: nat) returns (rc: int)
    requires Backed(f, v) && n <= |Dir(f, v).sectors|
    modifies f`lastcluster, f`lastsector, f`clusternum, f`sectornum, f`eof, f`at, v`disk, v`slots
    ensures Backed(f, v) && rc == 0 && (old(v.Counted()) ==> v.Counted())
    ensures Dir(f, v) == old(Dir(f, v)).(pos := n, eof := false)
    ensures OnlyThisFile(v.g, old(v.fat), f.chain, old(v.disk), v.fat, f.chain, v.disk)
  {
    ghost var disk0, secs := v.disk, v.g.FileSecs(f.chain);
    FileIsData(v.g, |disk0|, v.fat, f.chain);
    rc := FatSeek(f, v, n);
    forall k | 0 <= k < |secs|
      ensures SectorAt(v.disk, v.g.start + secs[k]) == SectorAt(disk0, v.g.start + secs[k])
    {
      assert InData(v.g, secs, k);
    }
    assert Listing(v.g, v.disk, secs) == Listing(v.g, disk0, secs);
    FatsKeepOthers(v.g, disk0, v.disk, secs);
    OneOperation(v.g, v.fat, f.chain, disk0, v.fat, f.chain, v.disk);
  }

  /** Read one sector of a directory. */
  method ReadDir(f: FatFile, v: Volume, buf: array<Byte>) returns (rc: int)
    requires Backed(f, v) && buf.Length == SECTOR_SIZE
    modifies f, v`disk, v`slots, v`freecount, v`nextfree, v`fat, buf
    ensures Backed(f, v) && (old(v.Counted()) ==> v.Counted())
    ensures OnlyThisFile(v.g, old(v.fat), old(f.chain), old(v.disk), v.fat, f.chain, v.disk)
    ensures rc == if old(Dir(f, v)).pos < |old(Dir(f, v)).sectors| then 1 else 0
    ensures Dir(f, v) == old(Dir(f, v)).(pos := old(Dir(f, v)).pos + rc, eof := rc == 0)
    ensures rc == 1 ==> SlotsIn(buf[..]) == Dir(f, v).sectors[old(Dir(f, v)).pos]
  {
    BackedIsValid(f, v);
    ghost var job, part;
    rc, job, part := FatReadWrite(f, v, 1, buf, 0, false);
    ReadLists(job, part, v.disk, buf[..]);
    ReadIsOwn(job, part, v.disk, buf[..]);
  }

  /** The other sectors of a directory when sector `p` has been written. */
  lemma OthersListed(g: Layout, d0: seq<Sector>, b0: seq<Byte>, d1: seq<Sector>, b: seq<Byte>, secs: seq<int>, p: int, k: int)
    requires DataSectors(g, secs) && 0 <= p < |secs| && 0 <= k < |secs| && k != p
    requires Exchanged(g, [secs[p]], 0, d0, b0, d1, b, true)
    ensures SectorAt(d1, g.start + secs[k]) == SectorAt(d0, g.start + secs[k])
  {
    assert if k < p then Differ(secs, k, p) else Differ(secs, p, k);
    ListingKept(g, [secs[p]], 0, d0, b0, d1, b, true, secs, k);
  }

  lemma OthersKeep(g: Layout, d0: seq<Sector>, b0: seq<Byte>, d1: seq<Sector>, b: seq<Byte>, secs0: seq<int>,
                   secs: seq<int>, p: int)
    requires DataSectors(g, secs) && secs0 <= secs && 0 <= p < |secs|
    requires Exchanged(g, [secs[p]], 0, d0, b0, d1, b, true)
    ensures forall k | 0 <= k < |secs0| && k != p :: Listing(g, d1, secs)[k] == Listing(g, d0, secs0)[k]
  {
    forall k | 0 <= k < |secs0| && k != p
      ensures Listing(g, d1, secs)[k] == Listing(g, d0, secs0)[k]
    {
      OthersListed(g, d0, b0, d1, b, secs, p, k);
      assert secs0[k] == secs[k];
    }
  }

  lemma OneListed(g: Layout, d0: seq<Sector>, b0: seq<Byte>, d1: seq<Sector>, b: seq<Byte>, s: int)
    requires Exchanged(g, [s], 0, d0, b0, d1, b, true) && |b| == SECTOR_SIZE
    ensures SectorAt(d1, g.start + s) == b
  {
    var whole := BufSector(b, 0, 0);
    assert whole == b;
  }

  /** A list that has been overwritten at one place, perhaps one behind its end. */
  lemma Rewritten<T>(before: seq<T>, now: seq<T>, p: int, x: T, fill: seq<T>) returns (junk: seq<T>)
    requires 0 <= p <= |before| && |now| == |before| + (if p == |before| then |fill| else 0) && p < |now|
    requires now[p] == x && forall k | 0 <= k < |before| && k != p :: now[k] == before[k]
    ensures |junk| == |fill| && now == (if p < |before| then before else before + junk)[p := x]
  {
    junk := if p < |before| then fill else now[|before|..];
  }

  /** A directory after one of its sectors has been written. */
  lemma WriteLists(job: Job, part: seq<int>, disk: seq<Sector>, b: seq<Byte>, links: seq<int>, chain: seq<int>)
    returns (junk: seq<DirSector>)
    requires JobDone(job, part, disk, b) && job.write && job.n == 1 && job.from == 0 && |b| == SECTOR_SIZE
    requires job.g.Laid(|disk|) && IsChain(job.g, links, chain) && job.chain <= chain
    requires 0 <= job.p && job.p + 1 <= |job.g.FileSecs(chain)| && part == Visited(job, chain, 1)
    requires job.p <= |job.g.FileSecs(job.chain)|
    requires |chain| == |job.chain| + (if job.p == |job.g.FileSecs(job.chain)| then 1 else 0)
    ensures b == job.buf && |junk| == job.g.perCluster
    ensures var before := Listing(job.g, job.disk, job.g.FileSecs(job.chain));
      Listing(job.g, disk, job.g.FileSecs(chain))
        == (if job.p < |before| then before else before + junk)[job.p := SlotsIn(job.buf)]
  {
    var secs0, secs := job.g.FileSecs(job.chain), job.g.FileSecs(chain);
    ByteFile.WriteKeepsBuffer(job, part, disk, b);
    FileSecsPrefix(job.g, job.chain, chain);
    FileIsData(job.g, |disk|, links, chain);
    assert part == [secs[job.p]];
    OthersKeep(job.g, job.disk, job.buf, disk, b, secs0, secs, job.p);
    var now, before := Listing(job.g, disk, secs), Listing(job.g, job.disk, secs0);
    OneListed(job.g, job.disk, job.buf, disk, b, secs[job.p]);
    junk := Rewritten<DirSector>(before, now, job.p, SlotsIn(b), seq(job.g.perCluster, (i: int) => Directories.EmptySector()));
  }

  /** Writing one sector takes a cluster just when the file ends there. */
  lemma OneClusterAtMost(job: Job, links: seq<int>, chain: seq<int>)
    requires 1 <= job.g.perCluster && job.n == 1 && 0 <= job.p <= Capacity(job.g, job.chain)
    requires Grown(job.g, job.links, job.chain, links, chain)
    ensures job.p + 1 <= Capacity(job.g, chain) && NoMore(job, chain, 1) ==>
      |chain| == |job.chain| + (if job.p == Capacity(job.g, job.chain) then 1 else 0)
    ensures job.p + 1 > Reach(job.g, job.links, job.chain) <==>
      job.p == Capacity(job.g, job.chain) && FreeCount(job.g, job.links) == 0
    ensures FreeCount(job.g, job.links) == 0 ==> chain == job.chain && FreeCount(job.g, links) == 0
  {
    var g, m, n := job.g, |job.chain|, |chain|;
    if n > m {
      g.SpanMonotone(m, n - 1);
    }
    if n > m + 1 {
      g.SpanMonotone(m, m + 1);
      g.SpanMonotone(m + 1, n - 1);
    }
    if FreeCount(g, job.links) > 0 {
      g.SpanMonotone(m, m + FreeCount(g, job.links));
    }
  }

  /** Write one sector of a directory; at its end the directory takes a cluster, whose other sectors hold anything. */
  method WriteDir(f: FatFile, v: Volume, buf: array<Byte>) returns (rc: int, ghost junk: seq<DirSector>)
    requires Backed(f, v) && !f.eof && buf.Length == SECTOR_SIZE
    modifies f, v`disk, v`slots, v`freecount, v`nextfree, v`fat, buf
    ensures OnlyThisFile(v.g, old(v.fat), old(f.chain), old(v.disk), v.fat, f.chain, v.disk)
    ensures Backed(f, v) && (old(v.Counted()) ==> v.Counted()) && buf[..] == old(buf[..])
    ensures |junk| == v.g.perCluster && (rc == 1 || rc == -2)
    ensures var d := old(Dir(f, v));
      && 0 <= d.pos <= |d.sectors|
      && (rc == -2 <==> d.pos == |d.sectors| && d.room == 0)
      && (if rc == 1 then
            Dir(f, v) == View((if d.pos < |d.sectors| then d.sectors else d.sectors + junk)[d.pos := SlotsIn(buf[..])],
                              d.pos + 1, false, d.room - (if d.pos == |d.sectors| then 1 else 0))
          else Dir(f, v) == d.(eof := true))
  {
    BackedIsValid(f, v);
    ghost var job, part;
    rc, job, part := FatReadWrite(f, v, 1, buf, 0, true);
    OneClusterAtMost(job, v.fat, f.chain);
    ByteFile.FileKeepsOthers(job, part, v.disk, buf[..], v.fat, f.chain, job.disk, 1);
    ByteFile.EntryZeroKept(v.g, job.links, job.chain, v.fat, f.chain);
    if rc == 1 {
      junk := WriteLists(job, part, v.disk, buf[..], v.fat, f.chain);
    } else {
      junk := NothingLists(job, v.disk, buf[..]);
    }
  }
}
