/** A directory as a list of sectors with a position, kept in a file of a volume. */
module DirFiles {
  import opened Folding
  import opened Sectors
  import opened Geometry
  import FatTable
  import Chains
  import opened FatFiles
  import FatIo
  import FileContents
  import FileRuns
  import opened Directories
  import opened DirBacking

  class DirFile {
    const file: FatFile
    const vol: FatTable.Volume
    const perCluster: nat            // sectors per cluster: a directory is made of whole clusters
    ghost var sectors: seq<DirSector>
    ghost var pos: nat               // the sector accessed next
    ghost var eof: bool              // the end has been met since the last seek
    ghost var room: nat              // clusters that can still be had
    ghost const fat0: seq<int>       // the volume as it was when the directory was opened
    ghost const chain0: seq<int>
    ghost const disk0: seq<Sector>
    ghost const counted0: bool

    /** The list is what the file on the volume holds. Since the directory was opened, nothing but the FATs and its own
        sectors has changed on the disk, and nothing but free clusters has been taken. */
    ghost predicate Valid()
      reads this, file, vol
    {
      && pos <= |sectors| && 1 <= perCluster <= 256
      && (eof ==> pos == |sectors|)
      && forall k {:trigger Open(k)} | Open(k) ::
           && perCluster == vol.g.perCluster && Backed(file, vol) && Dir(file, vol) == View(sectors, pos, eof, room)
           && FileContents.OnlyThisFile(vol.g, fat0, chain0, disk0, vol.fat, file.chain, vol.disk)
           && (counted0 ==> vol.Counted())
    }

    /** The invariant, unfolded. */
    lemma Opened()
      requires Valid()
      ensures perCluster == vol.g.perCluster && Backed(file, vol) && Dir(file, vol) == View(sectors, pos, eof, room)
      ensures FileContents.OnlyThisFile(vol.g, fat0, chain0, disk0, vol.fat, file.chain, vol.disk)
      ensures counted0 ==> vol.Counted()
    {
      assert Open(0);
    }

    lemma WholeClusters()
      requires Valid()
      ensures |sectors| % perCluster == 0
    {
      Opened();
      BackedIsValid(file, vol);
    }

    /** A directory that begins with cluster `startcluster`. */
    constructor (vol: FatTable.Volume, startcluster: int, ghost chain: seq<int>)
      requires vol.Valid() && vol.fat[0] >= EOF_MARK
      requires chain != [] && Chains.IsChain(vol.g, vol.fat, chain) && startcluster == chain[0]
      ensures Valid() && pos == 0 && !eof && fresh(file) && file.chain == chain && this.vol == vol
      ensures perCluster == vol.g.perCluster && room == FatTable.FreeCount(vol.g, vol.fat)
      ensures sectors == Listing(vol.g, vol.disk, vol.g.FileSecs(chain))
      ensures fat0 == vol.fat && chain0 == chain && disk0 == vol.disk && counted0 == vol.Counted()
    {
      this.vol, perCluster := vol, vol.g.perCluster;
      file := new FatFile(startcluster, chain);
      sectors := Listing(vol.g, vol.disk, vol.g.FileSecs(chain));
      pos, eof, room := 0, false, FatTable.FreeCount(vol.g, vol.fat);
      fat0, chain0, disk0, counted0 := vol.fat, chain, vol.disk, vol.Counted();
      new;
      assert Unfold(0);
      FileContents.NothingDone(vol.g, vol.fat, chain, vol.disk);
      BackedIsValid(file, vol);
    }

    method Seek(n: nat)
      requires Valid() && n <= |sectors|
      modifies this`pos, this`eof, file, vol`disk, vol`slots
      ensures Valid() && pos == n && !eof
    {
      Opened();
      ghost var fat1, chain1, disk1 := vol.fat, file.chain, vol.disk;
      var rc := SeekDir(file, vol, n);
      FileContents.TwoOperations(vol.g, fat0, chain0, disk0, fat1, chain1, disk1, vol.fat, file.chain, vol.disk);
      pos, eof := n, false;
    }

    /** Read the next sector; 0 at the end. */
    method Read() returns (rc: int, buf: DirSector)
      requires Valid()
      modifies this`pos, this`eof, file, vol`disk, vol`slots, vol`freecount, vol`nextfree, vol`fat
      ensures Valid() && rc == (if old(pos) < |sectors| then 1 else 0) && pos == old(pos) + rc
      ensures eof <==> rc == 0
      ensures rc == 1 ==> buf == sectors[old(pos)]
    {
      Opened();
      ghost var fat1, chain1, disk1 := vol.fat, file.chain, vol.disk;
      var bytes := new Byte[SECTOR_SIZE](_ => 0);
      rc := ReadDir(file, vol, bytes);
      FileContents.TwoOperations(vol.g, fat0, chain0, disk0, fat1, chain1, disk1, vol.fat, file.chain, vol.disk);
      buf := SlotsIn(bytes[..]);
      pos, eof := pos + rc, rc == 0;
    }

    /** Write the next sector; at the end of the directory take a cluster, whose other sectors hold anything. */
    method Write(buf: DirSector) returns (rc: int, ghost junk: seq<DirSector>)
      requires Valid() && !eof
      modifies this`pos, this`eof, this`sectors, this`room,
        file, vol`disk, vol`slots, vol`freecount, vol`nextfree, vol`fat
      ensures Valid() && |junk| == perCluster
      ensures (eof <==> rc != 1) && (rc == 1 || rc == -2) && (rc == -2 <==> old(pos) == |old(sectors)| && old(room) == 0)
      ensures rc == 1 ==> pos == old(pos) + 1 && room == old(room) - (if old(pos) == |old(sectors)| then 1 else 0)
      ensures rc == 1 ==>
        sectors == (if old(pos) < |old(sectors)| then old(sectors) else old(sectors) + junk)[old(pos) := buf]
      ensures rc != 1 ==> sectors == old(sectors) && pos == old(pos) && room == old(room)
    {
      Opened();
      ghost var fat1, chain1, disk1 := vol.fat, file.chain, vol.disk;
      var bytes := BytesOf(buf);
      rc, junk := WriteDir(file, vol, bytes);
      FileContents.TwoOperations(vol.g, fat0, chain0, disk0, fat1, chain1, disk1, vol.fat, file.chain, vol.disk);
      BackedIsValid(file, vol);
      ghost var now := Dir(file, vol);
      sectors, pos, eof, room := now.sectors, now.pos, now.eof, now.room;
    }

    /** Overwrite the next sector. */
    method Overwrite(buf: DirSector)
      requires Valid() && pos < |sectors|
      modifies this`pos, this`eof, this`sectors, this`room,
        file, vol`disk, vol`slots, vol`freecount, vol`nextfree, vol`fat
      ensures Valid() && pos == old(pos) + 1 && sectors == old(sectors)[old(pos) := buf] && room == old(room)
    {
      var rc;
      ghost var junk;
      rc, junk := Write(buf);
    }

    lemma PassedInCluster()
      requires Valid() && !eof
      ensures file.sectornum == if pos == 0 then 0 else (pos - 1) % perCluster + 1
    {
      Opened();
      PassedSectors(vol.g, file.chain, FatIo.CursorOf(file), file.at);
    }

    /** fat_file.sectornum: the sectors of the current cluster that have been passed. */
    function SectorNum(): (r: int)
      requires Valid() && !eof
      reads this, file, vol
      ensures r == if pos == 0 then 0 else (pos - 1) % perCluster + 1
    {
      PassedInCluster();
      file.sectornum
    }
  }

  /** Whatever has been done to a directory since it was opened, a file with other clusters has its chain and contents. */
  lemma OtherFilesKept(dir: DirFile, other: seq<int>, contents: seq<Byte>)
    requires dir.Valid() && Chains.IsChain(dir.vol.g, dir.fat0, other) && Chains.Apart(other, dir.chain0)
    requires FileContents.Stored(dir.vol.g, dir.disk0, dir.vol.g.FileSecs(other), contents, -1)
    ensures Chains.IsChain(dir.vol.g, dir.vol.fat, other) && Chains.Apart(other, dir.file.chain)
    ensures FileContents.Stored(dir.vol.g, dir.vol.disk, dir.vol.g.FileSecs(other), contents, -1)
  {
    assert Open(0);
    FileRuns.FileUndisturbed(dir.vol.g, |dir.vol.disk|, dir.fat0, dir.chain0, dir.disk0,
                             dir.vol.fat, dir.file.chain, dir.vol.disk, other, contents, -1);
  }

  /** The sector number of the cursor follows from the position. */
  lemma PassedSectors(g: Layout, chain: seq<int>, cur: FatIo.Cursor, at: nat)
    requires 1 <= g.perCluster && FatIo.Placed(g, chain, cur, at)
    ensures var pos := FatIo.Position(g, cur.numsec, at);
      0 <= pos && cur.numsec == if pos == 0 then 0 else (pos - 1) % g.perCluster + 1
  {
    if cur.numsec > 0 {
      g.SpanIsProduct(at);
      FatTable.QuotientUnique(g.Span(at) + cur.numsec - 1, g.perCluster, at, cur.numsec - 1);
    }
  }

  /** The bytes of a sector of slots. */
  method BytesOf(buf: DirSector) returns (bytes: array<Byte>)
    ensures fresh(bytes) && bytes.Length == SECTOR_SIZE && SlotsIn(bytes[..]) == buf
  {
    bytes := new Byte[SECTOR_SIZE](x requires 0 <= x < SECTOR_SIZE => buf[x / SLOT_SIZE][x % SLOT_SIZE]);
    var slots := SlotsIn(bytes[..]);
    forall i | 0 <= i < SLOTS
      ensures slots[i] == buf[i]
    {
      forall y | 0 <= y < SLOT_SIZE
        ensures slots[i][y] == buf[i][y]
      {
        assert slots[i][y] == bytes[SLOT_SIZE * i + y];
        assert (SLOT_SIZE * i + y) / SLOT_SIZE == i && (SLOT_SIZE * i + y) % SLOT_SIZE == y;
      }
    }
  }
}
