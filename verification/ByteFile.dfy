/** Byte access to an open file through a one-sector cache. */
module ByteFile {
  import opened Folding
  import opened Options
  import opened Sectors
  import opened Geometry
  import opened FatTable
  import opened Chains
  import opened FatFiles
  import opened FatIo
  import opened FileContents

  const CACHEALIGN_SIZE := 16

  function Min(a: int, b: int): int {
    if a < b then a else b
  }

  /** A write leaves the buffer it takes its data from alone. */
  lemma WriteKeepsBuffer(job: Job, part: seq<int>, disk: seq<Sector>, b: seq<Byte>)
    requires job.write && JobDone(job, part, disk, b)
    ensures b == job.buf
  {
    forall x | 0 <= x < |b|
      ensures b[x] == job.buf[x]
    {
      assert BufKept(job.from, SECTOR_SIZE * |part|, true, x);
    }
  }

  /** Outside the FATs and the file's own sectors a transfer changes nothing. */
  lemma TransferKeepsOthers(job: Job, part: seq<int>, disk: seq<Sector>, b: seq<Byte>, secs: seq<int>)
    requires JobDone(job, part, disk, b)
    requires forall t | 0 <= t < |part| :: part[t] in secs
    ensures OthersKept(job.g, job.disk, disk, secs)
  {
    forall s | 0 <= s < |disk| && DiskKept(job.g, secs, true, s)
      ensures disk[s] == job.disk[s]
    {
      assert DiskKept(job.g, part, job.write, s);
    }
  }

  lemma EntryZeroKept(g: Layout, links: seq<int>, chain: seq<int>, links': seq<int>, chain': seq<int>)
    requires IsChain(g, links, chain) && Grown(g, links, chain, links', chain') && 0 < |links| && links[0] >= EOF_MARK
    ensures 0 < |links'| && links'[0] >= EOF_MARK
  {
    forall i | 0 <= i < |chain|
      ensures chain[i] != 0
    {
      assert Linked(g, links, chain, i);
    }
  }

  /** memcpy between two different buffers. */
  method CopyBytes(dst: array<Byte>, at: nat, src: array<Byte>, from: nat, n: nat)
    requires dst != src && at + n <= dst.Length && from + n <= src.Length
    modifies dst
    ensures dst[..] == Patched(old(dst[..]), at, src[from..from + n])
  {
    forall x | 0 <= x < n {
      dst[at + x] := src[from + x];
    }
    assert dst[at..at + n] == src[from..from + n];
  }

  lemma ReadyWithin(f: FatFile, v: Volume)
    requires Ready(f, v) && 1 <= v.g.perCluster
    ensures 0 <= Next(f, v) <= |v.g.FileSecs(f.chain)|
  {
    EndIsCapacity(v.g, f.chain, CursorOf(f), f.at);
  }

  /** A write of `count` bytes at `pos` has to bring the cached sector to disk, and the file cannot reach that far. */
  predicate HeadTooFar(offs: int, count: int, pos: int, reach: int) {
    offs != -1 && SECTOR_SIZE - offs <= count && pos / SECTOR_SIZE + 1 > reach
  }

  /** The state in which a call is entered. */
  datatype Entry = Entry(contents: seq<Byte>, buf: seq<Byte>, pos: int,
                         fat: seq<int>, chain: seq<int>, disk: seq<Sector>, counted: bool)

  class FileDesc {
    const vol: Volume
    const fatfile: FatFile
    const cache: array<Byte>
    var cacheoffset: int
    var fileoffset: int
    var size: int
    var write: bool
    var dirty: bool
    var directory: bool
    ghost var contents: seq<Byte>

    ghost predicate Base()
      reads fatfile, vol
    {
      && vol.Valid() && cache.Length == SECTOR_SIZE
      && forall x {:trigger Open(x)} | Open(x) :: vol.fat[0] >= EOF_MARK && Seekable(fatfile, vol)
    }

    ghost function Secs(): seq<int>
      reads fatfile, vol
    {
      vol.g.FileSecs(fatfile.chain)
    }

    /** A transfer has ended because no cluster was free. */
    ghost predicate DiskFull()
      reads fatfile, vol
    {
      fatfile.eof && FreeSet(vol.g, vol.fat) == {}
    }

    /** The cache holds sector `k` of a file with contents `c`. */
    ghost predicate Caches(c: seq<Byte>, k: int)
      reads cache
      requires 0 <= k
    {
      Piece(c, k) <= cache[..]
    }

    /** All sectors of a file with contents `c` are on disk, and sector `k` is the next one. */
    ghost predicate Settled(c: seq<Byte>, k: int)
      reads fatfile, vol
    {
      && Base()
      && forall x {:trigger Open(x)} | Open(x) ::
           Stored(vol.g, vol.disk, Secs(), c, -1) && Ready(fatfile, vol) && Next(fatfile, vol) == k
    }

    /** Sector `k` of a file with contents `c` is cached; it may be newer than the disk if the handle is dirty. */
    ghost predicate Cached(c: seq<Byte>, k: int)
      reads this`cacheoffset, this`dirty, cache, fatfile, vol
      requires 0 <= k
    {
      && Base() && cacheoffset != -1
      && forall x {:trigger Open(x)} | Open(x) ::
           && Caches(c, k) && k <= |Secs()| && SECTOR_SIZE * k < |c|
           && (if dirty then Stored(vol.g, vol.disk, Secs(), c, k) else Settled(c, k + 1))
    }

    /** Nothing is cached. */
    ghost predicate Uncached(c: seq<Byte>, k: int)
      reads this`cacheoffset, this`dirty, fatfile, vol
    {
      cacheoffset == -1 && !dirty && Settled(c, k)
    }

    /** The file holds `c` and the next byte to be accessed is number `pos`. */
    ghost predicate Coherent(pos: int, c: seq<Byte>)
      reads this`cacheoffset, this`dirty, cache, fatfile, vol
    {
      && 0 <= pos <= |c| && Base()
      && (cacheoffset != -1 ==> cacheoffset == pos % SECTOR_SIZE)
      && (cacheoffset == -1 ==> pos % SECTOR_SIZE == 0)
      && forall x {:trigger Open(x)} | Open(x) ::
           && |c| / SECTOR_SIZE <= |Secs()|
           && (if cacheoffset == -1 then Uncached(c, pos / SECTOR_SIZE) else Cached(c, pos / SECTOR_SIZE))
    }

    ghost predicate Valid()
      reads this, cache, fatfile, vol
    {
      Coherent(fileoffset, contents) && size == |contents|
    }

    /** open: a handle on a file of the volume, at its first byte, with nothing cached. */
    constructor (vol: Volume, startcluster: int, size: int, write: bool, directory: bool,
                 ghost chain: seq<int>, ghost contents: seq<Byte>)
      requires vol.Valid() && vol.fat[0] >= EOF_MARK
      requires IsChain(vol.g, vol.fat, chain) && startcluster == First(chain)
      requires size == |contents| && |contents| / SECTOR_SIZE <= |vol.g.FileSecs(chain)|
      requires Stored(vol.g, vol.disk, vol.g.FileSecs(chain), contents, -1)
      ensures Valid() && fileoffset == 0 && this.contents == contents && fatfile.chain == chain
      ensures this.vol == vol && this.write == write && this.directory == directory
      ensures fresh(fatfile) && fresh(cache) && cacheoffset == -1
    {
      this.vol, this.size, this.write, this.directory, this.contents := vol, size, write, directory, contents;
      fatfile := new FatFile(startcluster, chain);
      cache := new Byte[SECTOR_SIZE](_ => 0);
      cacheoffset, fileoffset, dirty := -1, 0, false;
      new;
      assert Open(0);
    }

    /** Nothing has happened yet. */
    lemma Untouched()
      requires Base()
      ensures OnlyThisFile(vol.g, vol.fat, fatfile.chain, vol.disk, vol.fat, fatfile.chain, vol.disk)
      ensures |Secs()| <= Reach(vol.g, vol.fat, fatfile.chain)
    {
      assert Open(0);
      NothingDone(vol.g, vol.fat, fatfile.chain, vol.disk);
      ReachAtLeast(vol.g, vol.fat, fatfile.chain);
    }

    /** The handle is never beyond the end of its chain. */
    lemma Within(c: seq<Byte>, pos: int)
      requires Coherent(pos, c)
      ensures pos / SECTOR_SIZE <= |Secs()| && |c| / SECTOR_SIZE <= |Secs()|
      ensures cacheoffset != -1 ==> SECTOR_SIZE * (pos / SECTOR_SIZE) < |c|
    {
      assert Open(0);
      if cacheoffset == -1 {
        ReadyWithin(fatfile, vol);
      }
    }

    lemma SettledWithin(c: seq<Byte>, k: int)
      requires Settled(c, k)
      ensures 0 <= k <= |Secs()|
    {
      assert Open(0);
      ReadyWithin(fatfile, vol);
    }

    /** Between two sectors, with nothing cached. */
    lemma AtSector(c: seq<Byte>, k: nat)
      requires cacheoffset == -1
      ensures Coherent(SECTOR_SIZE * k, c) <==>
        SECTOR_SIZE * k <= |c| && |c| / SECTOR_SIZE <= |Secs()| && Uncached(c, k)
    {
      TailOf(k, 0);
      if Coherent(SECTOR_SIZE * k, c) {
        assert Open(0);
      }
    }

    /** Bring the cached sector of a dirty handle to disk. */
    method FlushCache(ghost c: seq<Byte>) returns (rc: int)
      requires Base() && 0 <= fileoffset && fileoffset / SECTOR_SIZE <= |Secs()|
      requires Caches(c, fileoffset / SECTOR_SIZE) && Stored(vol.g, vol.disk, Secs(), c, fileoffset / SECTOR_SIZE)
      modifies this`dirty, cache, fatfile, vol`disk, vol`slots, vol`freecount, vol`nextfree, vol`fat
      ensures Base() && cache[..] == old(cache[..])
      ensures OnlyThisFile(vol.g, old(vol.fat), old(fatfile.chain), old(vol.disk), vol.fat, fatfile.chain, vol.disk)
      ensures old(vol.Counted()) ==> vol.Counted()
      ensures rc == 0 || rc == -22
      ensures rc == 0 <==> fileoffset / SECTOR_SIZE + 1 <= Reach(vol.g, old(vol.fat), old(fatfile.chain))
      ensures |old(Secs())| <= |Secs()|
      ensures rc == 0 ==> !dirty && Settled(c, fileoffset / SECTOR_SIZE + 1)
      ensures rc != 0 ==> dirty == old(dirty) && Stored(vol.g, vol.disk, Secs(), c, fileoffset / SECTOR_SIZE)
    {
      assert Open(0);
      var sector := fileoffset / SECTOR_SIZE;
      ghost var disk0, fat0, chain0 := vol.disk, vol.fat, fatfile.chain;
      FileIsData(vol.g, |disk0|, fat0, chain0);
      rc := FatSeek(fatfile, vol, sector);
      ghost var disk1 := vol.disk;
      StoredBesideFats(vol.g, disk0, disk1, Secs(), c, sector);
      ghost var job, part;
      rc, job, part := FatReadWrite(fatfile, vol, 1, cache, 0, true);
      FlushStores(job, part, vol.disk, cache[..], vol.fat, fatfile.chain, c, sector, rc != -2);
      FileKeepsOthers(job, part, vol.disk, cache[..], vol.fat, fatfile.chain, disk0, 1);
      EntryZeroKept(vol.g, job.links, job.chain, vol.fat, fatfile.chain);
      if rc < 0 {
        rc := rc * 10 - 2;
        return;
      }
      dirty := false;
      rc := 0;
    }

    /** Copy bytes of the buffer into the cached sector, which is that of position `pos`. */
    method PutBytes(offs: nat, buf: array<Byte>, from: nat, n: nat, ghost pos: int)
      requires Base() && 0 <= pos <= |contents| && Caches(contents, pos / SECTOR_SIZE)
      requires Stored(vol.g, vol.disk, Secs(), contents, if dirty then pos / SECTOR_SIZE else -1)
      requires offs == pos % SECTOR_SIZE && offs + n <= SECTOR_SIZE && from + n <= buf.Length && buf != cache
      modifies this`dirty, this`contents, cache
      ensures contents == Splice(old(contents), pos, buf[from..from + n]) && dirty
      ensures Caches(contents, pos / SECTOR_SIZE) && Stored(vol.g, vol.disk, Secs(), contents, pos / SECTOR_SIZE)
    {
      assert Open(0);
      ghost var data, k := buf[from..from + n], pos / SECTOR_SIZE;
      PatchIsSplice(vol.g, vol.disk, Secs(), contents, pos, data, cache[..], if dirty then k else -1);
      CopyBytes(cache, offs, buf, from, n);
      contents := Splice(contents, pos, data);
      dirty := true;
    }

    /** Copy bytes of the cached sector, which is that of position `pos`, into the buffer. */
    method GetBytes(offs: nat, buf: array<Byte>, at: nat, n: nat, ghost pos: int)
      requires cache.Length == SECTOR_SIZE && buf != cache && at + n <= buf.Length && offs + n <= SECTOR_SIZE
      requires 0 <= pos && pos % SECTOR_SIZE == offs && pos + n <= |contents| && Caches(contents, pos / SECTOR_SIZE)
      modifies buf
      ensures buf[..] == Patched(old(buf[..]), at, contents[pos..pos + n])
    {
      PieceHolds(contents, pos, n, cache[..]);
      CopyBytes(buf, at, cache, offs, n);
    }

    /** Write the cached sector back if it is dirty, and let go of it. */
    method LeaveSector() returns (rc: int)
      requires 0 <= fileoffset && Cached(contents, fileoffset / SECTOR_SIZE)
      modifies this`dirty, this`cacheoffset, cache, fatfile, vol`disk, vol`slots, vol`freecount, vol`nextfree, vol`fat
      ensures Base() && cache[..] == old(cache[..])
      ensures OnlyThisFile(vol.g, old(vol.fat), old(fatfile.chain), old(vol.disk), vol.fat, fatfile.chain, vol.disk)
      ensures old(vol.Counted()) ==> vol.Counted()
      ensures rc == 0 || rc == -222
      ensures rc == 0 <==> fileoffset / SECTOR_SIZE + 1 <= Reach(vol.g, old(vol.fat), old(fatfile.chain))
      ensures rc == 0 ==> Uncached(contents, fileoffset / SECTOR_SIZE + 1) && fileoffset / SECTOR_SIZE + 1 <= |Secs()|
      ensures rc != 0 ==> dirty && cacheoffset == old(cacheoffset) && Cached(contents, fileoffset / SECTOR_SIZE)
      ensures |old(Secs())| <= |Secs()|
    {
      assert Open(0);
      rc := 0;
      if dirty {
        rc := FlushCache(contents);
        if rc < 0 {
          rc := rc * 10 - 2;
          return;
        }
      } else {
        Untouched();
      }
      ReadyWithin(fatfile, vol);
      cacheoffset := -1;
    }

    /** Having accessed `n` bytes of the cached sector, but not its last one, stay in it. */
    method StayCached(n: nat, ghost pos: int)
      requires 0 <= fileoffset && fileoffset + n <= |contents| && Cached(contents, fileoffset / SECTOR_SIZE)
      requires cacheoffset == fileoffset % SECTOR_SIZE && cacheoffset + n < SECTOR_SIZE
      requires pos == fileoffset + n && (|contents| / SECTOR_SIZE <= |Secs()| || |contents| == pos)
      modifies this`cacheoffset
      ensures Coherent(pos, contents) && cacheoffset != -1
      ensures OnlyThisFile(vol.g, vol.fat, fatfile.chain, vol.disk, vol.fat, fatfile.chain, vol.disk)
      ensures pos / SECTOR_SIZE <= Reach(vol.g, vol.fat, fatfile.chain)
    {
      assert Open(0);
      Untouched();
      StepInSector(fileoffset, n);
      cacheoffset := cacheoffset + n;
    }

    /** Having accessed `n` bytes of the cached sector, let go of it if they were its last. */
    method EndHead(n: nat, ghost pos: int) returns (rc: int)
      requires 0 <= fileoffset && fileoffset + n <= |contents| && Cached(contents, fileoffset / SECTOR_SIZE)
      requires cacheoffset == fileoffset % SECTOR_SIZE && cacheoffset + n <= SECTOR_SIZE
      requires pos == fileoffset + n && (|contents| / SECTOR_SIZE <= |Secs()| || |contents| == pos)
      modifies this`dirty, this`cacheoffset, cache, fatfile, vol`disk, vol`slots, vol`freecount, vol`nextfree, vol`fat
      ensures Base() && cache[..] == old(cache[..])
      ensures OnlyThisFile(vol.g, old(vol.fat), old(fatfile.chain), old(vol.disk), vol.fat, fatfile.chain, vol.disk)
      ensures old(vol.Counted()) ==> vol.Counted()
      ensures rc == 0 || rc == -222
      ensures rc == 0 <==> pos / SECTOR_SIZE <= Reach(vol.g, old(vol.fat), old(fatfile.chain))
      ensures rc == 0 ==> Coherent(pos, contents)
      ensures rc == 0 && cacheoffset != -1 ==> old(cacheoffset) + n < SECTOR_SIZE
      ensures rc != 0 ==> old(cacheoffset) + n == SECTOR_SIZE
      ensures rc != 0 ==> dirty && cacheoffset == old(cacheoffset) && Cached(contents, fileoffset / SECTOR_SIZE)
      ensures |old(Secs())| <= |Secs()|
    {
      rc := 0;
      StepInSector(fileoffset, n);
      if cacheoffset + n == SECTOR_SIZE {
        rc := LeaveSector();
        assert Open(0);
      } else {
        StayCached(n, pos);
      }
    }

    /** Whole sectors straight between a buffer and the file. */
    method MoveWhole(arr: array<Byte>, off: nat, n: nat, write: bool, ghost c: seq<Byte>, ghost k: nat)
      returns (r: int, ghost c': seq<Byte>)
      requires Uncached(c, k) && SECTOR_SIZE * k <= |c| && off + SECTOR_SIZE * n <= arr.Length
      requires !write ==> SECTOR_SIZE * (k + n) <= |c| && k + n <= |Secs()|
      modifies arr, fatfile, vol`disk, vol`slots, vol`freecount, vol`nextfree, vol`fat
      ensures Base() && (old(vol.Counted()) ==> vol.Counted())
      ensures OnlyThisFile(vol.g, old(vol.fat), old(fatfile.chain), old(vol.disk), vol.fat, fatfile.chain, vol.disk)
      ensures r == n || (write && r == -2 && DiskFull())
      ensures write ==> (r == n <==> k + n <= Reach(vol.g, old(vol.fat), old(fatfile.chain)))
      ensures if write then arr[..] == old(arr[..]) else fatfile.chain == old(fatfile.chain)
      ensures r == n ==> Uncached(c', k + n)
      ensures r == n ==> Moved(c, SECTOR_SIZE * k, old(arr[..]), off, SECTOR_SIZE * n, write, c', arr[..])
    {
      assert Open(0);
      ghost var disk0, fat0, chain0 := vol.disk, vol.fat, fatfile.chain;
      ghost var job, part;
      r, job, part := FatReadWrite(fatfile, vol, n, arr, off, write);
      EntryZeroKept(vol.g, fat0, chain0, vol.fat, fatfile.chain);
      FileKeepsOthers(job, part, vol.disk, arr[..], vol.fat, fatfile.chain, disk0, n);
      if write {
        WriteKeepsBuffer(job, part, vol.disk, arr[..]);
      }
      c' := c;
      if r == n {
        c' := WholeMoved(job, part, vol.disk, arr[..], vol.fat, fatfile.chain, c);
      }
    }

    /** One round of the loop for a misaligned buffer: one sector, by way of the cache. */
    method BounceSector(buf: array<Byte>, at: nat, write: bool, ghost c: seq<Byte>, ghost k: nat)
      returns (r: int, ghost c': seq<Byte>)
      requires Uncached(c, k) && SECTOR_SIZE * k <= |c| && buf != cache && at + SECTOR_SIZE <= buf.Length
      requires !write ==> SECTOR_SIZE * (k + 1) <= |c| && k + 1 <= |Secs()|
      modifies cache, buf, fatfile, vol`disk, vol`slots, vol`freecount, vol`nextfree, vol`fat
      ensures Base() && (old(vol.Counted()) ==> vol.Counted())
      ensures OnlyThisFile(vol.g, old(vol.fat), old(fatfile.chain), old(vol.disk), vol.fat, fatfile.chain, vol.disk)
      ensures r == 1 || (write && r == -2 && DiskFull())
      ensures write ==> (r == 1 <==> k + 1 <= Reach(vol.g, old(vol.fat), old(fatfile.chain)))
      ensures if write then buf[..] == old(buf[..]) else fatfile.chain == old(fatfile.chain)
      ensures r == 1 ==> Uncached(c', k + 1)
      ensures r == 1 ==> Moved(c, SECTOR_SIZE * k, old(buf[..]), at, SECTOR_SIZE, write, c', buf[..])
    {
      assert Unfold(0);
      if write {
        CopyBytes(cache, 0, buf, at, SECTOR_SIZE);
      }
      ghost var data := cache[..];
      r, c' := MoveWhole(cache, 0, 1, write, c, k);
      assert data[0..SECTOR_SIZE] == data;
      if write {
        assert data == buf[at..at + SECTOR_SIZE];
      } else {
        CopyBytes(buf, at, cache, 0, SECTOR_SIZE);
      }
    }

    /** The same, `done` bytes into a longer request that found the volume as `fat0`, `chain0` and `disk0`. */
    method BounceNext(buf: array<Byte>, from: nat, write: bool, ghost c0: seq<Byte>, ghost at0: nat, ghost b0: seq<Byte>,
                      ghost from0: nat, ghost done: nat, ghost k: nat,
                      ghost fat0: seq<int>, ghost chain0: seq<int>, ghost disk0: seq<Sector>)
      returns (r: int)
      requires Uncached(contents, k) && buf != cache && from + SECTOR_SIZE <= buf.Length
      requires Moved(c0, at0, b0, from0, done, write, contents, buf[..])
      requires SECTOR_SIZE * k == at0 + done && from == from0 + done
      requires !write ==> SECTOR_SIZE * (k + 1) <= |contents| && k + 1 <= |Secs()| && fatfile.chain == chain0
      requires OnlyThisFile(vol.g, fat0, chain0, disk0, vol.fat, fatfile.chain, vol.disk)
      modifies this`contents, cache, buf, fatfile, vol`disk, vol`slots, vol`freecount, vol`nextfree, vol`fat
      ensures Base() && (old(vol.Counted()) ==> vol.Counted())
      ensures OnlyThisFile(vol.g, fat0, chain0, disk0, vol.fat, fatfile.chain, vol.disk)
      ensures r == 1 || (write && r == -2 && DiskFull())
      ensures write ==> (r == 1 <==> k + 1 <= Reach(vol.g, fat0, chain0))
      ensures if write then buf[..] == b0 else fatfile.chain == chain0
      ensures r == 1 ==> Uncached(contents, k + 1)
      ensures r == 1 ==> Moved(c0, at0, b0, from0, done + SECTOR_SIZE, write, contents, buf[..])
    {
      ghost var c1, b1, fat1, chain1, disk1 := contents, buf[..], vol.fat, fatfile.chain, vol.disk;
      r, contents := BounceSector(buf, from, write, c1, k);
      TwoOperations(vol.g, fat0, chain0, disk0, fat1, chain1, disk1, vol.fat, fatfile.chain, vol.disk);
      if r == 1 {
        MovedTwice(c0, at0, b0, from0, done, write, c1, b1, SECTOR_SIZE * k, from, SECTOR_SIZE,
                   contents, buf[..], done + SECTOR_SIZE);
      }
    }

    /** The loop for a misaligned buffer. */
    method BounceSectors(buf: array<Byte>, nread: nat, sectors: nat, write: bool, ghost k: nat) returns (rc: int)
      requires Uncached(contents, k) && SECTOR_SIZE * k <= |contents| && buf != cache
      requires nread + SECTOR_SIZE * sectors <= buf.Length
      requires !write ==> SECTOR_SIZE * (k + sectors) <= |contents| && k + sectors <= |Secs()|
      modifies this`contents, cache, buf, fatfile, vol`disk, vol`slots, vol`freecount, vol`nextfree, vol`fat
      ensures Base() && (old(vol.Counted()) ==> vol.Counted())
      ensures OnlyThisFile(vol.g, old(vol.fat), old(fatfile.chain), old(vol.disk), vol.fat, fatfile.chain, vol.disk)
      ensures rc == sectors || (write && rc == -2 && DiskFull())
      ensures write ==> (rc == sectors <==> k + sectors <= Reach(vol.g, old(vol.fat), old(fatfile.chain)))
      ensures write ==> buf[..] == old(buf[..])
      ensures rc == sectors ==> Uncached(contents, k + sectors)
      ensures rc == sectors ==>
        Moved(old(contents), SECTOR_SIZE * k, old(buf[..]), nread, SECTOR_SIZE * sectors, write, contents, buf[..])
    {
      ghost var c0, b0, fat0, chain0, disk0 := contents, buf[..], vol.fat, fatfile.chain, vol.disk;
      ghost var at0, done, cur := SECTOR_SIZE * k, 0, k;
      rc := 0;
      Untouched();
      SettledWithin(contents, k);
      MovedNothing(c0, at0, b0, nread, write);
      for i := 0 to sectors
        invariant rc == i && cur == k + i && done == SECTOR_SIZE * i
        invariant Uncached(contents, cur) && (old(vol.Counted()) ==> vol.Counted())
        invariant OnlyThisFile(vol.g, fat0, chain0, disk0, vol.fat, fatfile.chain, vol.disk)
        invariant cur <= Reach(vol.g, fat0, chain0) && (!write ==> fatfile.chain == chain0)
        invariant Moved(c0, at0, b0, nread, done, write, contents, buf[..])
      {
        var rc2 := BounceNext(buf, nread + i * SECTOR_SIZE, write, c0, at0, b0, nread, done, cur, fat0, chain0, disk0);
        if rc2 < 0 {
          rc := rc2;
          return;
        }
        rc := rc + rc2;
        cur, done := cur + 1, done + SECTOR_SIZE;
      }
    }

    /** Whole sectors in one go, or through the cache, sector by sector, for a misaligned buffer. */
    method EitherWay(buf: array<Byte>, nread: nat, sectors: nat, write: bool, misaligned: bool, ghost k: nat)
      returns (rc: int)
      requires Uncached(contents, k) && SECTOR_SIZE * k <= |contents| && buf != cache
      requires nread + SECTOR_SIZE * sectors <= buf.Length
      requires !write ==> SECTOR_SIZE * (k + sectors) <= |contents| && k + sectors <= |Secs()|
      modifies this`contents, cache, buf, fatfile, vol`disk, vol`slots, vol`freecount, vol`nextfree, vol`fat
      ensures Base() && (old(vol.Counted()) ==> vol.Counted())
      ensures OnlyThisFile(vol.g, old(vol.fat), old(fatfile.chain), old(vol.disk), vol.fat, fatfile.chain, vol.disk)
      ensures rc == sectors || (write && rc == -2 && DiskFull())
      ensures write ==> (rc == sectors <==> k + sectors <= Reach(vol.g, old(vol.fat), old(fatfile.chain)))
      ensures write ==> buf[..] == old(buf[..])
      ensures rc == sectors ==> Uncached(contents, k + sectors)
      ensures rc == sectors ==>
        Moved(old(contents), SECTOR_SIZE * k, old(buf[..]), nread, SECTOR_SIZE * sectors, write, contents, buf[..])
    {
      if misaligned {
        rc := BounceSectors(buf, nread, sectors, write, k);
      } else {
        rc, contents := MoveWhole(buf, nread, sectors, write, contents, k);
      }
    }

    /** All whole sectors of a request. */
    method WholeSectors(buf: array<Byte>, nread: nat, sectors: nat, write: bool, misaligned: bool, ghost k: nat)
      returns (rc: int)
      requires Coherent(SECTOR_SIZE * k, contents) && cacheoffset == -1 && buf != cache
      requires nread + SECTOR_SIZE * sectors <= buf.Length
      requires !write ==> SECTOR_SIZE * (k + sectors) <= |contents|
      modifies this`contents, cache, buf, fatfile, vol`disk, vol`slots, vol`freecount, vol`nextfree, vol`fat
      ensures Base() && (old(vol.Counted()) ==> vol.Counted())
      ensures OnlyThisFile(vol.g, old(vol.fat), old(fatfile.chain), old(vol.disk), vol.fat, fatfile.chain, vol.disk)
      ensures rc == sectors || (write && rc == -2 && DiskFull())
      ensures write ==> (rc == sectors <==> k + sectors <= Reach(vol.g, old(vol.fat), old(fatfile.chain)))
      ensures write ==> buf[..] == old(buf[..])
      ensures rc == sectors ==> Coherent(SECTOR_SIZE * (k + sectors), contents)
      ensures rc == sectors ==>
        Moved(old(contents), SECTOR_SIZE * k, old(buf[..]), nread, SECTOR_SIZE * sectors, write, contents, buf[..])
    {
      ghost var c0, fat0, chain0, disk0 := contents, vol.fat, fatfile.chain, vol.disk;
      Within(contents, SECTOR_SIZE * k);
      AtSector(contents, k);
      TailOf(k, 0);
      rc := EitherWay(buf, nread, sectors, write, misaligned, k);
      if rc == sectors {
        SettledWithin(contents, k + sectors);
        OperationGrows(vol.g, fat0, chain0, disk0, vol.fat, fatfile.chain, vol.disk);
        TailOf(k + sectors, 0);
        AtSector(contents, k + sectors);
      }
    }

    /** Read sector `k` of the file, the next one, into the cache. */
    method LoadSector(ghost c: seq<Byte>, ghost k: nat)
      requires Settled(c, k) && SECTOR_SIZE * k < |c|
      modifies cache, fatfile, vol`disk, vol`slots, vol`freecount, vol`nextfree, vol`fat
      ensures Settled(c, k + 1) && Caches(c, k) && vol.fat == old(vol.fat) && fatfile.chain == old(fatfile.chain)
      ensures OnlyThisFile(vol.g, old(vol.fat), old(fatfile.chain), old(vol.disk), vol.fat, fatfile.chain, vol.disk)
      ensures old(vol.Counted()) ==> vol.Counted()
    {
      assert Open(0);
      assert OnDisk(vol.g, vol.disk, Secs(), c, k);
      ghost var disk0 := vol.disk;
      ghost var job, part;
      var rc;
      rc, job, part := FatReadWrite(fatfile, vol, 1, cache, 0, false);
      OneLoaded(job, part, vol.disk, cache[..], vol.fat, fatfile.chain, c);
      FileKeepsOthers(job, part, vol.disk, cache[..], vol.fat, fatfile.chain, disk0, 1);
    }

    /** Go to another sector of a file that is all on disk; this cannot fail inside the file. */
    method SeekSector(sector: nat, ghost c: seq<Byte>, ghost k: nat)
      requires Settled(c, k) && sector <= |Secs()|
      modifies fatfile, vol`disk, vol`slots
      ensures Settled(c, sector) && vol.fat == old(vol.fat) && fatfile.chain == old(fatfile.chain)
      ensures OnlyThisFile(vol.g, old(vol.fat), old(fatfile.chain), old(vol.disk), vol.fat, fatfile.chain, vol.disk)
      ensures old(vol.Counted()) ==> vol.Counted()
    {
      assert Open(0);
      ghost var disk0 := vol.disk;
      FileIsData(vol.g, |disk0|, vol.fat, fatfile.chain);
      var rc := FatSeek(fatfile, vol, sector);
      StoredBesideFats(vol.g, disk0, vol.disk, Secs(), c, -1);
      FatsKeepOthers(vol.g, disk0, vol.disk, Secs());
      OneOperation(vol.g, vol.fat, fatfile.chain, disk0, vol.fat, fatfile.chain, vol.disk);
    }

    /** Read the partly overwritten sector into the cache and step back before it. */
    method CopyBack(sector: nat)
      requires Settled(contents, sector) && SECTOR_SIZE * sector < |contents|
      modifies cache, fatfile, vol`disk, vol`slots, vol`freecount, vol`nextfree, vol`fat
      ensures Settled(contents, sector) && Caches(contents, sector) && fatfile.chain == old(fatfile.chain)
      ensures OnlyThisFile(vol.g, old(vol.fat), old(fatfile.chain), old(vol.disk), vol.fat, fatfile.chain, vol.disk)
      ensures old(vol.Counted()) ==> vol.Counted()
    {
      ghost var fat0, chain0, disk0 := vol.fat, fatfile.chain, vol.disk;
      LoadSector(contents, sector);
      ghost var disk1 := vol.disk;
      SettledWithin(contents, sector + 1);
      SeekSector(sector, contents, sector + 1);
      TwoOperations(vol.g, fat0, chain0, disk0, fat0, chain0, disk1, fat0, chain0, vol.disk);
    }

    /** The bytes behind the last whole sector of a write. */
    method TailWrite(buf: array<Byte>, nread: nat, count: nat, ghost k: nat)
      requires 0 <= fileoffset && fileoffset + nread == SECTOR_SIZE * k && Coherent(SECTOR_SIZE * k, contents)
      requires cacheoffset == -1 && 0 < count < SECTOR_SIZE && nread + count <= buf.Length && buf != cache
      requires fileoffset + nread < size <==> SECTOR_SIZE * k < |contents|
      modifies this`contents, this`dirty, this`cacheoffset, cache, fatfile,
        vol`disk, vol`slots, vol`freecount, vol`nextfree, vol`fat
      ensures Coherent(SECTOR_SIZE * k + count, contents) && buf[..] == old(buf[..])
      ensures contents == Splice(old(contents), SECTOR_SIZE * k, buf[nread..nread + count])
      ensures OnlyThisFile(vol.g, old(vol.fat), old(fatfile.chain), old(vol.disk), vol.fat, fatfile.chain, vol.disk)
      ensures old(vol.Counted()) ==> vol.Counted()
    {
      assert Open(0);
      ReadyWithin(fatfile, vol);
      if fileoffset + nread < size {
        CopyBack((fileoffset + nread) / SECTOR_SIZE);
      } else {
        NothingDone(vol.g, vol.fat, fatfile.chain, vol.disk);
      }
      TailOf(k, count);
      PutBytes(0, buf, nread, count, SECTOR_SIZE * k);
      cacheoffset := count;
    }

    /** The bytes behind the last whole sector of a read. */
    method TailRead(buf: array<Byte>, nread: nat, count: nat, ghost k: nat)
      requires Coherent(SECTOR_SIZE * k, contents) && SECTOR_SIZE * k + count <= |contents|
      requires cacheoffset == -1 && 0 < count < SECTOR_SIZE && nread + count <= buf.Length && buf != cache
      modifies this`cacheoffset, buf, cache, fatfile, vol`disk, vol`slots, vol`freecount, vol`nextfree, vol`fat
      ensures Coherent(SECTOR_SIZE * k + count, contents) && fatfile.chain == old(fatfile.chain)
      ensures buf[..] == Patched(old(buf[..]), nread, contents[SECTOR_SIZE * k..SECTOR_SIZE * k + count])
      ensures OnlyThisFile(vol.g, old(vol.fat), old(fatfile.chain), old(vol.disk), vol.fat, fatfile.chain, vol.disk)
      ensures old(vol.Counted()) ==> vol.Counted()
    {
      assert Open(0);
      LoadSector(contents, k);
      TailOf(k, count);
      GetBytes(0, buf, nread, count, SECTOR_SIZE * k);
      cacheoffset := count;
      ReadyWithin(fatfile, vol);
    }

    /** Bytes between the buffer and the cached sector. */
    method MoveHead(offs: nat, buf: array<Byte>, n: nat, write: bool, ghost pos: int)
      requires Valid() && buf != cache && n <= buf.Length && (!write ==> fileoffset + n <= size)
      requires offs == cacheoffset && offs + n <= SECTOR_SIZE && pos == fileoffset + n
      modifies this`contents, this`dirty, cache, buf
      ensures Cached(contents, fileoffset / SECTOR_SIZE) && cacheoffset == fileoffset % SECTOR_SIZE
      ensures pos <= |contents| && (|contents| / SECTOR_SIZE <= |Secs()| || |contents| == pos)
      ensures Moved(old(contents), fileoffset, old(buf[..]), 0, n, write, contents, buf[..])
    {
      if write {
        PutHead(offs, buf, n, pos);
      } else {
        GetHead(offs, buf, n, pos);
      }
    }

    method PutHead(offs: nat, buf: array<Byte>, n: nat, ghost pos: int)
      requires Valid() && buf != cache && n <= buf.Length
      requires offs == cacheoffset && offs + n <= SECTOR_SIZE && pos == fileoffset + n
      modifies this`contents, this`dirty, cache
      ensures Cached(contents, fileoffset / SECTOR_SIZE) && cacheoffset == fileoffset % SECTOR_SIZE
      ensures pos <= |contents| && (|contents| / SECTOR_SIZE <= |Secs()| || |contents| == pos)
      ensures Moved(old(contents), fileoffset, buf[..], 0, n, true, contents, buf[..])
    {
      assert Open(0);
      PutBytes(offs, buf, 0, n, fileoffset);
    }

    method GetHead(offs: nat, buf: array<Byte>, n: nat, ghost pos: int)
      requires Valid() && buf != cache && n <= buf.Length && fileoffset + n <= size
      requires offs == cacheoffset && offs + n <= SECTOR_SIZE && pos == fileoffset + n
      modifies buf
      ensures Cached(contents, fileoffset / SECTOR_SIZE) && cacheoffset == fileoffset % SECTOR_SIZE
      ensures pos <= |contents| && |contents| / SECTOR_SIZE <= |Secs()|
      ensures Moved(contents, fileoffset, old(buf[..]), 0, n, false, contents, buf[..])
    {
      assert Open(0);
      GetBytes(offs, buf, 0, n, fileoffset);
    }

    /** A write that could not be completed did not make the file longer. */
    ghost method ForgetGrowth()
      requires 0 <= fileoffset <= size <= |contents| && size / SECTOR_SIZE <= |Secs()|
      requires SECTOR_SIZE * (fileoffset / SECTOR_SIZE) < size
      requires Cached(contents, fileoffset / SECTOR_SIZE) && dirty && cacheoffset == fileoffset % SECTOR_SIZE
      modifies this`contents
      ensures Valid() && contents == old(contents)[..size]
    {
      assert Open(0);
      CutStored(vol.g, vol.disk, Secs(), contents, size, fileoffset / SECTOR_SIZE);
      contents := contents[..size];
    }

    /** The bytes that the cached sector can take or give. */
    method Head(buf: array<Byte>, count: nat, write: bool) returns (rc: int, nread: nat, ghost pos: int)
      requires Valid() && buf != cache && count <= buf.Length && (!write ==> fileoffset + count <= size)
      requires cacheoffset != -1
      modifies this`contents, this`dirty, this`cacheoffset, cache, buf, fatfile,
        vol`disk, vol`slots, vol`freecount, vol`nextfree, vol`fat
      ensures nread == Min(count, SECTOR_SIZE - old(cacheoffset)) && pos == fileoffset + nread
      ensures rc == 0 ==> Coherent(pos, contents) && (cacheoffset != -1 ==> nread == count)
      ensures rc == 0 ==> Moved(old(contents), fileoffset, old(buf[..]), 0, nread, write, contents, buf[..])
      ensures rc == 0 ==> pos / SECTOR_SIZE <= Reach(vol.g, old(vol.fat), old(fatfile.chain))
      ensures rc == 0 <==> !(write && HeadTooFar(old(cacheoffset), count, fileoffset,
                                                 Reach(vol.g, old(vol.fat), old(fatfile.chain))))
      ensures rc != 0 ==> rc == -222 && Valid() && buf[..] == old(buf[..]) && old(cacheoffset) + nread == SECTOR_SIZE
      ensures rc != 0 ==> contents == Splice(old(contents), fileoffset, buf[..nread])[..size]
      ensures OnlyThisFile(vol.g, old(vol.fat), old(fatfile.chain), old(vol.disk), vol.fat, fatfile.chain, vol.disk)
      ensures old(vol.Counted()) ==> vol.Counted()
    {
      Untouched();
      Within(contents, fileoffset);
      SameReach(vol.g, vol.fat, fatfile.chain, vol.disk, vol.fat, fatfile.chain, vol.disk);
      var offs := cacheoffset;
      nread := Min(count, SECTOR_SIZE - offs);
      pos := fileoffset + nread;
      StepInSector(fileoffset, nread);
      MoveHead(offs, buf, nread, write, pos);
      rc := EndHead(nread, pos);
      assert rc == 0 && cacheoffset != -1 ==> nread == count;
      if rc == 0 {
        return;
      }
      assert Unfold(0);
      ForgetGrowth();
    }

    /** What has happened since a call was entered in state `st`: `n` bytes have been moved, in this file only. */
    ghost predicate Since(st: Entry, n: int, write: bool, buf: array<Byte>)
      requires vol.Valid()
      reads this`contents, buf, fatfile, vol
    {
      && OnlyThisFile(vol.g, st.fat, st.chain, st.disk, vol.fat, fatfile.chain, vol.disk)
      && Moved(st.contents, st.pos, st.buf, 0, n, write, contents, buf[..])
      && (st.counted ==> vol.Counted())
    }

    /** The whole sectors behind the head bytes. */
    method Middle(buf: array<Byte>, nread0: nat, count0: nat, write: bool, address: nat, ghost st: Entry)
      returns (rc: int, nread: nat, count: nat)
      requires 0 <= fileoffset == st.pos && Coherent(st.pos + nread0, contents) && (cacheoffset != -1 ==> count0 == 0)
      requires buf != cache && nread0 + count0 <= buf.Length && Since(st, nread0, write, buf)
      requires !write ==> st.pos + nread0 + count0 <= |contents|
      modifies this`contents, this`cacheoffset, cache, buf, fatfile,
        vol`disk, vol`slots, vol`freecount, vol`nextfree, vol`fat
      ensures Base() && (rc >= 0 ==> nread + count == nread0 + count0 && count == count0 % SECTOR_SIZE)
      ensures rc >= 0 ==> Coherent(st.pos + nread, contents) && (cacheoffset != -1 ==> count == 0)
      ensures rc >= 0 ==> Since(st, nread, write, buf)
      ensures rc < 0 ==> rc == -2 && write && nread == nread0 && DiskFull() && count0 > 0
      ensures rc < 0 ==> buf[..] == st.buf && (st.counted ==> vol.Counted())
      ensures rc < 0 ==> OnlyThisFile(vol.g, st.fat, st.chain, st.disk, vol.fat, fatfile.chain, vol.disk)
      ensures rc >= 0 <==> !write || (st.pos + nread0 + count0) / SECTOR_SIZE <= Reach(vol.g, st.fat, st.chain)
    {
      Within(contents, st.pos + nread0);
      SameReach(vol.g, st.fat, st.chain, st.disk, vol.fat, fatfile.chain, vol.disk);
      rc, nread, count := 0, nread0, count0;
      var sectors := count / SECTOR_SIZE;
      if sectors == 0 {
        return;
      }
      ghost var c1, b1, fat1, chain1, disk1 := contents, buf[..], vol.fat, fatfile.chain, vol.disk;
      ghost var k := (st.pos + nread) / SECTOR_SIZE;
      rc := WholeSectors(buf, nread, sectors, write, (address + nread) % CACHEALIGN_SIZE != 0, k);
      TwoOperations(vol.g, st.fat, st.chain, st.disk, fat1, chain1, disk1, vol.fat, fatfile.chain, vol.disk);
      cacheoffset := -1;
      if rc < 0 {
        return;
      }
      nread := nread + rc * SECTOR_SIZE;
      count := count - sectors * SECTOR_SIZE;
      MovedTwice(st.contents, st.pos, st.buf, 0, nread0, write, c1, b1,
                 SECTOR_SIZE * k, nread0, SECTOR_SIZE * sectors, contents, buf[..], nread);
    }

    /** The bytes behind the last whole sector. */
    method Tail(buf: array<Byte>, nread: nat, count: nat, write: bool, ghost total: int, ghost pos: int,
                ghost st: Entry)
      requires 0 <= fileoffset == st.pos && Coherent(st.pos + nread, contents) && count < SECTOR_SIZE
      requires buf != cache && nread + count <= buf.Length && (cacheoffset != -1 ==> count == 0)
      requires total == nread + count && pos == st.pos + total && (!write ==> pos <= |contents|)
      requires size == |st.contents| && Since(st, nread, write, buf)
      modifies this`contents, this`dirty, this`cacheoffset, cache, buf, fatfile,
        vol`disk, vol`slots, vol`freecount, vol`nextfree, vol`fat
      ensures Coherent(pos, contents) && Since(st, total, write, buf)
    {
      if count == 0 {
        return;
      }
      ghost var c1, b1, fat1, chain1, disk1 := contents, buf[..], vol.fat, fatfile.chain, vol.disk;
      ghost var k := (st.pos + nread) / SECTOR_SIZE;
      if write {
        TailWrite(buf, nread, count, k);
      } else {
        TailRead(buf, nread, count, k);
      }
      TwoOperations(vol.g, st.fat, st.chain, st.disk, fat1, chain1, disk1, vol.fat, fatfile.chain, vol.disk);
      MovedTwice(st.contents, st.pos, st.buf, 0, nread, write, c1, b1,
                 SECTOR_SIZE * k, nread, count, contents, buf[..], total);
    }

    /** Move on by the bytes accessed; a write may have made the file longer. */
    method Advance(nread: nat, write: bool, ghost pos: int)
      requires 0 <= fileoffset && pos == fileoffset + nread && Coherent(pos, contents)
      requires |contents| == if write && pos > size then pos else size
      modifies this`fileoffset, this`size
      ensures Valid() && fileoffset == old(fileoffset) + nread
    {
      fileoffset := fileoffset + nread;
      assert Coherent(pos, contents);
      if write && fileoffset > size {
        size := fileoffset;
      }
    }

    /** What remains to be done behind the whole sectors; this cannot fail. */
    method Complete(buf: array<Byte>, nread: nat, count: nat, write: bool, ghost st: Entry) returns (r: int)
      requires 0 <= fileoffset == st.pos && Coherent(st.pos + nread, contents) && count < SECTOR_SIZE
      requires buf != cache && nread + count <= buf.Length && (cacheoffset != -1 ==> count == 0)
      requires !write ==> st.pos + nread + count <= |contents|
      requires size == |st.contents| && Since(st, nread, write, buf)
      modifies this`contents, this`dirty, this`cacheoffset, this`fileoffset, this`size,
        cache, buf, fatfile, vol`disk, vol`slots, vol`freecount, vol`nextfree, vol`fat
      ensures Valid() && r == nread + count && fileoffset == st.pos + r && Since(st, r, write, buf)
    {
      ghost var total := nread + count;
      ghost var pos := st.pos + total;
      Tail(buf, nread, count, write, total, pos, st);
      r := nread + count;
      Advance(r, write, pos);
    }

    /** Everything behind the head bytes. */
    method Rest(buf: array<Byte>, nread0: nat, count0: nat, write: bool, address: nat, ghost st: Entry) returns (r: int)
      requires 0 <= fileoffset == st.pos && Coherent(st.pos + nread0, contents) && (cacheoffset != -1 ==> count0 == 0)
      requires buf != cache && nread0 + count0 <= buf.Length && size == |st.contents| && Since(st, nread0, write, buf)
      requires !write ==> st.pos + nread0 + count0 <= |contents|
      modifies this`contents, this`dirty, this`cacheoffset, this`fileoffset, this`size,
        cache, buf, fatfile, vol`disk, vol`slots, vol`freecount, vol`nextfree, vol`fat
      ensures Base() && (st.counted ==> vol.Counted())
      ensures OnlyThisFile(vol.g, st.fat, st.chain, st.disk, vol.fat, fatfile.chain, vol.disk)
      ensures write ==> buf[..] == st.buf
      ensures r == nread0 + count0 || (r == if nread0 != 0 then nread0 else -24)
      ensures r == nread0 + count0 <==>
        !write || (st.pos + nread0 + count0) / SECTOR_SIZE <= Reach(vol.g, st.fat, st.chain)
      ensures r == nread0 + count0 ==> Valid() && fileoffset == st.pos + r && Since(st, r, write, buf)
      ensures r != nread0 + count0 ==> DiskFull() && fileoffset == st.pos && cacheoffset == -1 && size == |st.contents|
    {
      var rc, nread, count := Middle(buf, nread0, count0, write, address, st);
      if rc < 0 {
        fileoffset := if write && fatfile.eof then fileoffset else fileoffset + nread;
        cacheoffset := -1;
        size := if write && fileoffset > size then fileoffset else size;
        return if nread != 0 then nread else rc * 10 - 4;
      }
      r := Complete(buf, nread, count, write, st);
    }

    /** A handle that lost its place cannot be used without seeking. */
    lemma PlaceLost()
      requires cacheoffset == -1 && fatfile.eof
      ensures !Valid()
    {
      assert Open(0);
    }

    /** A write that was entered with the cache at offset `offs` could not be completed. If writing back the cached sector
        is what failed, the handle is as good as before, and bytes that the file already had have been overwritten up to
        the end of that sector. */
    ghost predicate WriteFailed(r: int, offs: int, st: Entry)
      reads this, cache, fatfile, vol
    {
      && fileoffset == st.pos && size == |st.contents| && (r == -222 <==> Valid())
      && forall k {:trigger Open(k)} | Open(k) ::
         if r == -222 then
           && 0 <= st.pos <= |st.contents| && 0 <= SECTOR_SIZE - offs <= |st.buf|
           && contents == Splice(st.contents, st.pos, st.buf[..SECTOR_SIZE - offs])[..|st.contents|]
         else
           && DiskFull() && cacheoffset == -1 && r == if offs == -1 then -24 else SECTOR_SIZE - offs
    }

    /** The head bytes, if a sector is cached. */
    method Begin(buf: array<Byte>, count: nat, write: bool, ghost st: Entry) returns (rc: int, nread: nat)
      requires Valid() && buf != cache && count <= buf.Length && (!write ==> fileoffset + count <= size)
      requires st == Entry(contents, buf[..], fileoffset, vol.fat, fatfile.chain, vol.disk, vol.Counted())
      modifies this`contents, this`dirty, this`cacheoffset, cache, buf, fatfile,
        vol`disk, vol`slots, vol`freecount, vol`nextfree, vol`fat
      ensures Base() && nread == if old(cacheoffset) == -1 then 0 else Min(count, SECTOR_SIZE - old(cacheoffset))
      ensures rc == 0 ==> Coherent(st.pos + nread, contents) && (cacheoffset != -1 ==> nread == count)
      ensures rc == 0 ==> Since(st, nread, write, buf) && (st.pos + nread) / SECTOR_SIZE <= Reach(vol.g, st.fat, st.chain)
      ensures rc != 0 <==> write && HeadTooFar(old(cacheoffset), count, st.pos, Reach(vol.g, st.fat, st.chain))
      ensures rc != 0 ==> rc == -222 && WriteFailed(rc, old(cacheoffset), st) && buf[..] == st.buf
      ensures OnlyThisFile(vol.g, st.fat, st.chain, st.disk, vol.fat, fatfile.chain, vol.disk)
      ensures st.counted ==> vol.Counted()
    {
      rc, nread := 0, 0;
      if cacheoffset != -1 {
        ghost var pos;
        rc, nread, pos := Head(buf, count, write);
      } else {
        Untouched();
        Within(contents, fileoffset);
        MovedNothing(contents, fileoffset, buf[..], 0, write);
      }
    }

    /** Common body of read and write. A read always delivers; a write goes through just when the file can reach as far
        as its last whole sector. A write that fails leaves the handle usable just when writing back the cached sector
        is what failed, and then it has changed at most bytes the file already had. */
    method ReadWrite(buf: array<Byte>, count0: nat, write: bool, address: nat, ghost st: Entry) returns (r: int)
      requires Valid() && buf != cache && count0 <= buf.Length
      requires st == Entry(contents, buf[..], fileoffset, vol.fat, fatfile.chain, vol.disk, vol.Counted())
      modifies this`contents, this`dirty, this`cacheoffset, this`fileoffset, this`size,
        cache, buf, fatfile, vol`disk, vol`slots, vol`freecount, vol`nextfree, vol`fat
      ensures Base() && (st.counted ==> vol.Counted())
      ensures OnlyThisFile(vol.g, st.fat, st.chain, st.disk, vol.fat, fatfile.chain, vol.disk)
      ensures write ==> buf[..] == st.buf
      ensures directory ==> r == -1 && Valid() && contents == st.contents && fileoffset == st.pos
      ensures !directory && !write ==> r == Min(count0, |st.contents| - st.pos)
      ensures !directory && write ==>
        (r == count0 <==> (st.pos + count0) / SECTOR_SIZE <= Reach(vol.g, st.fat, st.chain))
      ensures !directory && (!write || r == count0) ==> Valid() && fileoffset == st.pos + r && Since(st, r, write, buf)
      ensures !directory && write ==>
        (r == -222 <==> HeadTooFar(old(cacheoffset), count0, st.pos, Reach(vol.g, st.fat, st.chain)))
      ensures !directory && write && r != count0 ==> WriteFailed(r, old(cacheoffset), st)
    {
      Untouched();
      if directory {
        return -1;
      }
      var count, nread: int := count0, 0;
      if !write && count > size - fileoffset {
        count := size - fileoffset;
      }
      var rc;
      rc, nread := Begin(buf, count, write, st);
      if rc < 0 {
        return rc;
      }
      count := count - nread;
      r := Rest(buf, nread, count, write, address, st);
      if r != nread + count {
        PlaceLost();
      }
    }

    /** read: the next `count` bytes of the file, or as many as there are. */
    method Read(buf: array<Byte>, count: nat, address: nat) returns (r: int)
      requires Valid() && buf != cache && count <= buf.Length
      modifies this`contents, this`dirty, this`cacheoffset, this`fileoffset, this`size,
        cache, buf, fatfile, vol`disk, vol`slots, vol`freecount, vol`nextfree, vol`fat
      ensures Valid() && contents == old(contents) && (old(vol.Counted()) ==> vol.Counted())
      ensures OnlyThisFile(vol.g, old(vol.fat), old(fatfile.chain), old(vol.disk), vol.fat, fatfile.chain, vol.disk)
      ensures directory ==> r == -1 && fileoffset == old(fileoffset)
      ensures !directory ==> r == Min(count, |contents| - old(fileoffset)) && fileoffset == old(fileoffset) + r
      ensures !directory ==>
        buf[..] == Patched(old(buf[..]), 0, contents[old(fileoffset)..old(fileoffset) + r])
    {
      ghost var st := Entry(contents, buf[..], fileoffset, vol.fat, fatfile.chain, vol.disk, vol.Counted());
      r := ReadWrite(buf, count, false, address, st);
      assert Unfold(0);
    }

    /** write: overwrite the next `count` bytes of the file, making it longer if need be. */
    method Write(buf: array<Byte>, count: nat, address: nat) returns (r: int)
      requires Valid() && buf != cache && count <= buf.Length
      modifies this`contents, this`dirty, this`cacheoffset, this`fileoffset, this`size,
        cache, buf, fatfile, vol`disk, vol`slots, vol`freecount, vol`nextfree, vol`fat
      ensures Base() && buf[..] == old(buf[..]) && (old(vol.Counted()) ==> vol.Counted())
      ensures OnlyThisFile(vol.g, old(vol.fat), old(fatfile.chain), old(vol.disk), vol.fat, fatfile.chain, vol.disk)
      ensures !write || directory ==>
        r == -1 && Valid() && contents == old(contents) && fileoffset == old(fileoffset)
      ensures write && !directory ==>
        (r == count <==> (old(fileoffset) + count) / SECTOR_SIZE <= Reach(vol.g, old(vol.fat), old(fatfile.chain)))
      ensures write && !directory && r == count ==>
        Valid() && fileoffset == old(fileoffset) + count && contents == Splice(old(contents), old(fileoffset), buf[..count])
      ensures write && !directory ==>
        (r == -222 <==> HeadTooFar(old(cacheoffset), count, old(fileoffset), Reach(vol.g, old(vol.fat), old(fatfile.chain))))
      ensures write && !directory && r != count ==> WriteFailed(r, old(cacheoffset),
        old(Entry(contents, buf[..], fileoffset, vol.fat, fatfile.chain, vol.disk, vol.Counted())))
    {
      if !write {
        Untouched();
        return -1;
      }
      ghost var st := Entry(contents, buf[..], fileoffset, vol.fat, fatfile.chain, vol.disk, vol.Counted());
      r := ReadWrite(buf, count, true, address, st);
      assert Unfold(0);
    }

    /** The way of read through `ReadWrite` on a handle that lost its place: whole sectors, and an aligned buffer. */
    method ReadLost(buf: array<Byte>, count0: nat) returns (r: int)
      requires Base() && cacheoffset == -1 && fatfile.eof && 0 <= fileoffset <= size
      requires buf != cache && count0 <= buf.Length && SECTOR_SIZE <= Min(count0, size - fileoffset)
      modifies this`cacheoffset, this`fileoffset, buf, fatfile, vol`disk, vol`slots, vol`freecount, vol`nextfree, vol`fat
      ensures r == 0 && fileoffset == old(fileoffset) && cacheoffset == -1 && fatfile.eof
    {
      assert Open(0);
      var count, nread: int := count0, 0;
      if count > size - fileoffset {
        count := size - fileoffset;
      }
      var sectors := count / SECTOR_SIZE;
      ghost var job, part;
      var rc;
      rc, job, part := FatReadWrite(fatfile, vol, sectors, buf, nread, false);
      if rc > 0 {
        nread := nread + rc * SECTOR_SIZE;
      }
      cacheoffset := -1;
      fileoffset := fileoffset + nread;
      r := nread;
    }

    /** What a lost place means: on a handle with nothing cached, a write that overfills the disk fails, and a read behind
        it returns nothing, although there is at least a sector to be read where the handle stands. */
    method WriteTooMuchThenRead(big: array<Byte>, count: nat, buf: array<Byte>, n: nat) returns (w: int, r: int)
      requires Valid() && write && !directory && cacheoffset == -1
      requires big != cache && count <= big.Length && buf != cache && n <= buf.Length
      requires (fileoffset + count) / SECTOR_SIZE > Reach(vol.g, vol.fat, fatfile.chain)
      requires SECTOR_SIZE <= Min(n, size - fileoffset)
      modifies this`contents, this`dirty, this`cacheoffset, this`fileoffset, this`size,
        cache, big, buf, fatfile, vol`disk, vol`slots, vol`freecount, vol`nextfree, vol`fat
      ensures w == -24 && r == 0
      ensures fileoffset == old(fileoffset) && size == old(size) && SECTOR_SIZE <= Min(n, size - fileoffset)
    {
      w := Write(big, count, 0);
      assert Open(0);
      r := ReadLost(buf, n);
    }

    /** Write back a dirty sector and go to sector `newsector`. */
    method ChangeSector(newsector: nat) returns (rc: int)
      requires Valid() && newsector <= |contents| / SECTOR_SIZE
      modifies this`dirty, cache, fatfile, vol`disk, vol`slots, vol`freecount, vol`nextfree, vol`fat
      ensures Base() && (old(vol.Counted()) ==> vol.Counted())
      ensures OnlyThisFile(vol.g, old(vol.fat), old(fatfile.chain), old(vol.disk), vol.fat, fatfile.chain, vol.disk)
      ensures rc == 0 || rc == -225
      ensures rc == 0 <==>
        !old(dirty) || fileoffset / SECTOR_SIZE + 1 <= Reach(vol.g, old(vol.fat), old(fatfile.chain))
      ensures rc == 0 ==> !dirty && Settled(contents, newsector) && |contents| / SECTOR_SIZE <= |Secs()|
      ensures rc != 0 ==> Valid()
    {
      rc := 0;
      assert Open(0);
      Untouched();
      Within(contents, fileoffset);
      if dirty {
        rc := FlushCache(contents);
        if rc < 0 {
          rc := rc * 10 - 5;
          return;
        }
      }
      ghost var fat0, chain0, disk0 := vol.fat, fatfile.chain, vol.disk;
      OperationGrows(vol.g, old(vol.fat), old(fatfile.chain), old(vol.disk), fat0, chain0, disk0);
      SeekSector(newsector, contents, fileoffset / SECTOR_SIZE + (if cacheoffset == -1 then 0 else 1));
      TwoOperations(vol.g, old(vol.fat), old(fatfile.chain), old(vol.disk), fat0, chain0, disk0,
                    vol.fat, fatfile.chain, vol.disk);
    }

    /** Get ready for access at some offset of the next sector. */
    method EnterSector(newsector: nat, sectoroffset: nat, ghost pos: int)
      requires Settled(contents, newsector) && !dirty && |contents| / SECTOR_SIZE <= |Secs()|
      requires pos == SECTOR_SIZE * newsector + sectoroffset <= |contents| && sectoroffset < SECTOR_SIZE
      modifies this`cacheoffset, cache, fatfile, vol`disk, vol`slots, vol`freecount, vol`nextfree, vol`fat
      ensures Coherent(pos, contents) && (old(vol.Counted()) ==> vol.Counted())
      ensures OnlyThisFile(vol.g, old(vol.fat), old(fatfile.chain), old(vol.disk), vol.fat, fatfile.chain, vol.disk)
      ensures vol.fat == old(vol.fat) && fatfile.chain == old(fatfile.chain)
    {
      assert Open(0);
      TailOf(newsector, sectoroffset);
      SettledWithin(contents, newsector);
      Untouched();
      if sectoroffset != 0 {
        LoadSector(contents, newsector);
        cacheoffset := sectoroffset;
      } else {
        cacheoffset := -1;
      }
    }

    /** Move inside the cached sector, or within reach of an uncached one. */
    method StayInSector(sectoroffset: nat, ghost pos: int)
      requires Valid() && 0 <= pos <= |contents| && pos / SECTOR_SIZE == fileoffset / SECTOR_SIZE
      requires sectoroffset == pos % SECTOR_SIZE && (cacheoffset == -1 ==> sectoroffset == 0)
      modifies this`cacheoffset
      ensures Coherent(pos, contents)
    {
      assert Open(0);
      if cacheoffset != -1 {
        cacheoffset := sectoroffset;
      }
    }

    /** The cache and the FAT position follow to position `pos`. */
    method Relocate(pos: nat) returns (rc: int)
      requires Valid() && pos <= size
      modifies this`cacheoffset, this`dirty, cache, fatfile, vol`disk, vol`slots, vol`freecount, vol`nextfree, vol`fat
      ensures Base() && (old(vol.Counted()) ==> vol.Counted())
      ensures OnlyThisFile(vol.g, old(vol.fat), old(fatfile.chain), old(vol.disk), vol.fat, fatfile.chain, vol.disk)
      ensures rc == if old(dirty) && pos / SECTOR_SIZE != fileoffset / SECTOR_SIZE
                       && fileoffset / SECTOR_SIZE + 1 > Reach(vol.g, old(vol.fat), old(fatfile.chain)) then -225 else 0
      ensures if rc == 0 then Coherent(pos, contents) else Valid()
    {
      rc := 0;
      Untouched();
      Within(contents, fileoffset);
      var newsector := pos / SECTOR_SIZE;
      var oldsector := fileoffset / SECTOR_SIZE;
      var sectoroffset := pos % SECTOR_SIZE;
      if newsector != oldsector || (cacheoffset == -1 && sectoroffset != 0) {
        if newsector != oldsector {
          rc := ChangeSector(newsector);
          if rc < 0 {
            return;
          }
        } else {
          AtSector(contents, newsector);
        }
        ghost var fat1, chain1, disk1 := vol.fat, fatfile.chain, vol.disk;
        EnterSector(newsector, sectoroffset, pos);
        TwoOperations(vol.g, old(vol.fat), old(fatfile.chain), old(vol.disk), fat1, chain1, disk1,
                      vol.fat, fatfile.chain, vol.disk);
      } else {
        StayInSector(sectoroffset, pos);
      }
    }

    /** lseek: set the position to any offset inside the file or to its end. */
    method Lseek(offset: int, whence: int) returns (r: int)
      requires Valid()
      modifies this`dirty, this`cacheoffset, this`fileoffset,
        cache, fatfile, vol`disk, vol`slots, vol`freecount, vol`nextfree, vol`fat
      ensures Valid() && contents == old(contents) && (old(vol.Counted()) ==> vol.Counted())
      ensures OnlyThisFile(vol.g, old(vol.fat), old(fatfile.chain), old(vol.disk), vol.fat, fatfile.chain, vol.disk)
      ensures fileoffset == if r >= 0 then r else old(fileoffset)
      ensures r >= 0 && whence == 0 ==> r == offset
      ensures r >= 0 && whence == 1 ==> r == old(fileoffset) + offset
      ensures r >= 0 && whence == 2 ==> r == |contents| + offset
      ensures whence == 0 ==> (r == -3 <==> !(0 <= offset <= |contents|))
      ensures whence == 1 ==> (r == -3 <==> !(0 <= old(fileoffset) + offset <= |contents|))
      ensures whence == 2 ==> (r == -3 <==> !(-|contents| <= offset <= 0))
      ensures r == -2 <==> whence != 0 && whence != 1 && whence != 2
      ensures r == match Target(old(fileoffset), |contents|, offset, whence)
        case None => -2
        case Some(pos) =>
          if !(0 <= pos <= |contents|) then -3
          else if old(dirty) && pos / SECTOR_SIZE != old(fileoffset) / SECTOR_SIZE
               && old(fileoffset) / SECTOR_SIZE + 1 > Reach(vol.g, old(vol.fat), old(fatfile.chain)) then -225
          else pos
    {
      Untouched();
      var pos;
      match whence {
        case 0 => pos := offset;
        case 1 => pos := fileoffset + offset;
        case 2 => pos := size + offset;
        case _ => return -2;
      }
      if pos < 0 || pos > size {
        return -3;
      }
      var rc := Relocate(pos);
      if rc < 0 {
        return rc;
      }
      fileoffset := pos;
      return pos;
    }
  }

  const SEEK_SET := 0
  const SEEK_CUR := 1
  const SEEK_END := 2

  /** The position a seek asks for. */
  function Target(at: int, size: int, offset: int, whence: int): Option<int> {
    if whence == SEEK_SET then Some(offset)
    else if whence == SEEK_CUR then Some(at + offset)
    else if whence == SEEK_END then Some(size + offset)
    else None
  }

  /** Reading one sector brings its part of the file into the cache. */
  lemma OneLoaded(job: Job, part: seq<int>, disk: seq<Sector>, b: seq<Byte>, links: seq<int>, chain: seq<int>, c: seq<Byte>)
    requires JobDone(job, part, disk, b) && !job.write && job.g.Laid(|job.disk|)
    requires 0 <= job.p && job.n == 1 && job.p + 1 <= |job.g.FileSecs(chain)| && part == Visited(job, chain, 1)
    requires IsChain(job.g, links, chain) && job.chain == chain && job.from == 0 && |b| == SECTOR_SIZE
    requires Stored(job.g, job.disk, job.g.FileSecs(chain), c, -1)
    ensures Stored(job.g, disk, job.g.FileSecs(chain), c, -1)
    ensures Piece(c, job.p) <= b
  {
    var secs := job.g.FileSecs(chain);
    FileIsData(job.g, |job.disk|, links, chain);
    ReadKeepsFile(job, part, disk, b, secs, c);
    ReadDelivers(job.g, job.disk, disk, secs, job.p, 1, b, 0, job.buf, c, -1, 0);
    var whole := BufSector(b, 0, 0);
    assert whole == b;
  }

  /** Writing sectors of the file that agree with contents `c'` completes those contents on disk. */
  lemma WriteCompletes(job: Job, part: seq<int>, disk: seq<Sector>, b: seq<Byte>, links: seq<int>, chain: seq<int>,
                       c: seq<Byte>, c': seq<Byte>, except: int)
    requires JobDone(job, part, disk, b) && job.write && job.g.Laid(|job.disk|)
    requires 0 <= job.p && 0 <= job.n && job.p + job.n <= |job.g.FileSecs(chain)| && part == Visited(job, chain, job.n)
    requires IsChain(job.g, links, chain) && job.chain <= chain
    requires Stored(job.g, job.disk, job.g.FileSecs(job.chain), c, except)
    requires except == -1 || job.p <= except < job.p + job.n
    requires b == job.buf && Agree(job.p, job.n, b, job.from, c, c')
    ensures Stored(job.g, disk, job.g.FileSecs(chain), c', -1)
  {
    FileSecsPrefix(job.g, job.chain, chain);
    FileIsData(job.g, |job.disk|, links, chain);
    WriteStores(job.g, job.disk, job.g.FileSecs(job.chain), disk, job.g.FileSecs(chain),
                job.p, job.n, b, job.from, job.buf, c, c', except);
  }

  /** Writing the cached sector back completes the file on disk; if that fails nothing is lost. */
  lemma FlushStores(job: Job, part: seq<int>, disk: seq<Sector>, b: seq<Byte>, links: seq<int>, chain: seq<int>,
                    c: seq<Byte>, sector: int, ok: bool)
    requires JobDone(job, part, disk, b) && job.write && job.n == 1 && job.p == sector && job.from == 0
    requires job.g.Laid(|job.disk|) && |b| == SECTOR_SIZE
    requires IsChain(job.g, links, chain) && job.chain <= chain
    requires 0 <= sector && Stored(job.g, job.disk, job.g.FileSecs(job.chain), c, sector)
    requires Piece(c, sector) <= job.buf
    requires ok ==> sector + 1 <= |job.g.FileSecs(chain)| && part == Visited(job, chain, 1)
    requires !ok ==> part == []
    ensures b == job.buf
    ensures Stored(job.g, disk, job.g.FileSecs(chain), c, if ok then -1 else sector)
    ensures |job.g.FileSecs(job.chain)| <= |job.g.FileSecs(chain)|
  {
    WriteKeepsBuffer(job, part, disk, b);
    if ok {
      var whole := BufSector(b, 0, 0);
      assert whole == b;
      assert Agree(sector, 1, b, 0, c, c);
      WriteCompletes(job, part, disk, b, links, chain, c, c, sector);
    } else {
      NothingMoved(job, disk, b, links, chain, c, sector);
    }
    FileSecsPrefix(job.g, job.chain, chain);
  }

  lemma WholeStores(job: Job, part: seq<int>, disk: seq<Sector>, b: seq<Byte>, links: seq<int>, chain: seq<int>,
                    c: seq<Byte>)
    returns (c': seq<Byte>)
    requires JobDone(job, part, disk, b) && job.write && job.g.Laid(|job.disk|)
    requires 0 <= job.p && 0 <= job.n && job.p + job.n <= |job.g.FileSecs(chain)| && part == Visited(job, chain, job.n)
    requires IsChain(job.g, links, chain) && job.chain <= chain
    requires Stored(job.g, job.disk, job.g.FileSecs(job.chain), c, -1)
    requires SECTOR_SIZE * job.p <= |c| && 0 <= job.from && job.from + SECTOR_SIZE * job.n <= |job.buf|
    ensures Stored(job.g, disk, job.g.FileSecs(chain), c', -1)
    ensures Moved(c, SECTOR_SIZE * job.p, job.buf, job.from, SECTOR_SIZE * job.n, true, c', b)
  {
    WriteKeepsBuffer(job, part, disk, b);
    c' := MovedSectors(c, job.p, job.n, b, job.from);
    WriteCompletes(job, part, disk, b, links, chain, c, c', -1);
  }

  /** A transfer of whole sectors that went through: the new contents of the file, all on disk. */
  lemma WholeMoved(job: Job, part: seq<int>, disk: seq<Sector>, b: seq<Byte>, links: seq<int>, chain: seq<int>,
                   c: seq<Byte>)
    returns (c': seq<Byte>)
    requires JobDone(job, part, disk, b) && job.g.Laid(|job.disk|) && IsChain(job.g, links, chain)
    requires 0 <= job.p && 0 <= job.n && job.p + job.n <= |job.g.FileSecs(chain)| && part == Visited(job, chain, job.n)
    requires if job.write then job.chain <= chain else job.chain == chain && SECTOR_SIZE * (job.p + job.n) <= |c|
    requires Stored(job.g, job.disk, job.g.FileSecs(job.chain), c, -1)
    requires SECTOR_SIZE * job.p <= |c| && 0 <= job.from && job.from + SECTOR_SIZE * job.n <= |job.buf|
    ensures Stored(job.g, disk, job.g.FileSecs(chain), c', -1)
    ensures Moved(c, SECTOR_SIZE * job.p, job.buf, job.from, SECTOR_SIZE * job.n, job.write, c', b)
  {
    if job.write {
      c' := WholeStores(job, part, disk, b, links, chain, c);
    } else {
      WholeReads(job, part, disk, b, links, chain, c);
      c' := c;
    }
  }

  lemma WholeReads(job: Job, part: seq<int>, disk: seq<Sector>, b: seq<Byte>, links: seq<int>, chain: seq<int>, c: seq<Byte>)
    requires JobDone(job, part, disk, b) && !job.write && job.g.Laid(|job.disk|)
    requires 0 <= job.p && 0 <= job.n && job.p + job.n <= |job.g.FileSecs(chain)| && part == Visited(job, chain, job.n)
    requires IsChain(job.g, links, chain) && job.chain == chain
    requires Stored(job.g, job.disk, job.g.FileSecs(chain), c, -1)
    requires SECTOR_SIZE * (job.p + job.n) <= |c| && 0 <= job.from && job.from + SECTOR_SIZE * job.n <= |job.buf|
    ensures Stored(job.g, disk, job.g.FileSecs(chain), c, -1)
    ensures b == Patched(job.buf, job.from, c[SECTOR_SIZE * job.p..SECTOR_SIZE * (job.p + job.n)])
  {
    var secs := job.g.FileSecs(chain);
    FileIsData(job.g, |job.disk|, links, chain);
    ReadKeepsFile(job, part, disk, b, secs, c);
    ReadDeliversAll(job.g, job.disk, disk, secs, job.p, job.n, b, job.from, job.buf, c);
  }

  lemma ReadKeepsFile(job: Job, part: seq<int>, disk: seq<Sector>, b: seq<Byte>, secs: seq<int>, c: seq<Byte>)
    requires JobDone(job, part, disk, b) && !job.write && DataSectors(job.g, secs)
    requires Stored(job.g, job.disk, secs, c, -1)
    ensures Stored(job.g, disk, secs, c, -1)
  {
    forall k | 0 <= k && SECTOR_SIZE * k < |c|
      ensures OnDisk(job.g, disk, secs, c, k)
    {
      assert OnDisk(job.g, job.disk, secs, c, k) && InData(job.g, secs, k);
      assert DiskKept(job.g, part, false, job.g.start + secs[k]);
    }
  }

  /** The sectors a transfer visits belong to the file, so other files keep theirs. */
  lemma FileKeepsOthers(job: Job, part: seq<int>, disk: seq<Sector>, b: seq<Byte>, links: seq<int>, chain: seq<int>,
                        disk0: seq<Sector>, i: int)
    requires IsChain(job.g, links, chain) && Grown(job.g, job.links, job.chain, links, chain)
    requires JobDone(job, part, disk, b) && job.g.Laid(|disk0|) && FatsOnly(job.g, disk0, job.disk)
    requires (0 <= i && 0 <= job.p && job.p + i <= |job.g.FileSecs(chain)| && part == Visited(job, chain, i))
          || (forall t | 0 <= t < |part| :: part[t] in job.g.FileSecs(chain))
    ensures OnlyThisFile(job.g, job.links, job.chain, disk0, links, chain, disk)
  {
    var secs := job.g.FileSecs(chain);
    forall t | 0 <= t < |part|
      ensures part[t] in secs
    {
      if 0 <= i && 0 <= job.p && job.p + i <= |secs| && part == Visited(job, chain, i) {
        assert part[t] == secs[job.p + t];
      }
    }
    TransferKeepsOthers(job, part, disk, b, secs);
    FatsKeepOthers(job.g, disk0, job.disk, secs);
    OthersKeptTwice(job.g, disk0, job.disk, disk, secs, secs);
    OneOperation(job.g, job.links, job.chain, disk0, links, chain, disk);
  }

  /** A transfer that fails at its first sector leaves the file as it was. */
  lemma NothingMoved(job: Job, disk: seq<Sector>, b: seq<Byte>, links: seq<int>, chain: seq<int>, c: seq<Byte>, except: int)
    requires JobDone(job, [], disk, b) && job.g.Laid(|job.disk|)
    requires IsChain(job.g, links, chain) && job.chain <= chain
    requires Stored(job.g, job.disk, job.g.FileSecs(job.chain), c, except)
    ensures Stored(job.g, disk, job.g.FileSecs(chain), c, except)
  {
    var secs0, secs := job.g.FileSecs(job.chain), job.g.FileSecs(chain);
    FileSecsPrefix(job.g, job.chain, chain);
    FileIsData(job.g, |job.disk|, links, chain);
    forall k | 0 <= k && SECTOR_SIZE * k < |c| && k != except
      ensures OnDisk(job.g, disk, secs, c, k)
    {
      assert OnDisk(job.g, job.disk, secs0, c, k);
      assert secs[k] == secs0[k] && InData(job.g, secs, k);
      assert DiskKept(job.g, [], job.write, job.g.start + secs[k]);
    }
  }

  /** Bytes of the cached sector are bytes of the file. */
  lemma PieceHolds(c: seq<Byte>, at: int, n: int, cache: seq<Byte>)
    requires 0 <= at && 0 <= n && at + n <= |c| && at % SECTOR_SIZE + n <= SECTOR_SIZE == |cache|
    requires Piece(c, at / SECTOR_SIZE) <= cache
    ensures cache[at % SECTOR_SIZE..at % SECTOR_SIZE + n] == c[at..at + n]
  {
    var k, offs := at / SECTOR_SIZE, at % SECTOR_SIZE;
    var l, r := cache[offs..offs + n], c[at..at + n];
    forall y | 0 <= y < |l|
      ensures l[y] == r[y]
    {
      assert Piece(c, k)[offs + y] == c[SECTOR_SIZE * k + (offs + y)];
    }
  }

  lemma ReachAtLeast(g: Layout, links: seq<int>, chain: seq<int>)
    ensures |g.FileSecs(chain)| <= Reach(g, links, chain)
  {
    g.SpanMonotone(|chain|, |chain| + FreeCount(g, links));
  }
}
