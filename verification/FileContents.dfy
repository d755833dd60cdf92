/** Byte contents of a file, and what it means that a chain of sectors stores them. */
module FileContents {
  import opened Folding
  import opened Sectors
  import opened Geometry
  import opened FatTable
  import opened Chains
  import opened FatIo

  /** A byte array after `data` has been written at offset `at`; writing may extend it. */
  function Splice(c: seq<Byte>, at: int, data: seq<Byte>): (r: seq<Byte>)
    requires 0 <= at <= |c|
    ensures |r| == if at + |data| > |c| then at + |data| else |c|
  {
    c[..at] + data + (if at + |data| < |c| then c[at + |data|..] else [])
  }

  lemma SpliceAt(c: seq<Byte>, at: int, data: seq<Byte>, x: int)
    requires 0 <= at <= |c| && 0 <= x < |Splice(c, at, data)|
    ensures at <= x < at + |data| ==> Splice(c, at, data)[x] == data[x - at]
    ensures !(at <= x < at + |data|) ==> x < |c| && Splice(c, at, data)[x] == c[x]
  {
  }

  /** Two writes in a row are one write of both. */
  lemma SpliceTwice(c: seq<Byte>, at: int, a: seq<Byte>, b: seq<Byte>)
    requires 0 <= at <= |c|
    ensures Splice(Splice(c, at, a), at + |a|, b) == Splice(c, at, a + b)
  {
    var l, r := Splice(Splice(c, at, a), at + |a|, b), Splice(c, at, a + b);
    forall x | 0 <= x < |l|
      ensures l[x] == r[x]
    {
      SpliceAt(Splice(c, at, a), at + |a|, b, x);
      SpliceAt(c, at, a + b, x);
      if x < |Splice(c, at, a)| {
        SpliceAt(c, at, a, x);
      }
    }
  }

  /** What sector `k` of a file with contents `c` has to begin with. */
  function Piece(c: seq<Byte>, k: int): (p: seq<Byte>)
    requires 0 <= k
    ensures |p| <= SECTOR_SIZE
  {
    if SECTOR_SIZE * (k + 1) <= |c| then c[SECTOR_SIZE * k..SECTOR_SIZE * (k + 1)]
    else if SECTOR_SIZE * k <= |c| then c[SECTOR_SIZE * k..] else []
  }

  /** Sector `k` of the file is on disk. */
  ghost predicate OnDisk(g: Layout, disk: seq<Sector>, secs: seq<int>, c: seq<Byte>, k: int) {
    0 <= k < |secs| && 0 <= g.start + secs[k] < |disk| && Piece(c, k) <= disk[g.start + secs[k]]
  }

  /** All sectors of the file are on disk, except perhaps one. */
  ghost predicate Stored(g: Layout, disk: seq<Sector>, secs: seq<int>, c: seq<Byte>, except: int) {
    forall k {:trigger OnDisk(g, disk, secs, c, k)} | 0 <= k && SECTOR_SIZE * k < |c| && k != except ::
      OnDisk(g, disk, secs, c, k)
  }

  /** Where a stored file is on the device: its sector `q` is sector `k` of its `i`-th cluster. */
  lemma ByteOnDisk(g: Layout, disk: seq<Sector>, chain: seq<int>, c: seq<Byte>, except: int, i: nat, k: nat, q: nat, y: nat)
    requires Stored(g, disk, g.FileSecs(chain), c, except) && k < g.perCluster && y < 512
    requires q == i * g.perCluster + k && 512 * q + y < |c| && q != except
    ensures i < |chain|
    ensures var s := g.start + g.Cluster2Sec(chain[i]) + k; 0 <= s < |disk| && disk[s][y] == c[512 * q + y]
  {
    g.SpanIsProduct(i);
    StoredByte(g, disk, chain, c, except, i, k, q, y);
  }

  lemma StoredByte(g: Layout, disk: seq<Sector>, chain: seq<int>, c: seq<Byte>, except: int, i: nat, k: nat, q: nat, y: nat)
    requires Stored(g, disk, g.FileSecs(chain), c, except) && k < g.perCluster && y < 512 && q == g.Span(i) + k
    requires 512 * q + y < |c| && q != except
    ensures i < |chain|
    ensures var s := g.start + g.Cluster2Sec(chain[i]) + k;
      0 <= s < |disk| && disk[s][y] == c[512 * q + y]
  {
    var secs := g.FileSecs(chain);
    assert OnDisk(g, disk, secs, c, q);
    if i >= |chain| {
      g.SpanMonotone(|chain|, i);
    }
    g.FileSecsAt(chain, i, k);
    assert Piece(c, q)[y] == c[512 * q + y];
  }

  /** Disk sectors that belong to neither the FATs nor the file are as before. */
  ghost predicate OthersKept(g: Layout, disk: seq<Sector>, disk': seq<Sector>, secs: seq<int>) {
    && |disk'| == |disk|
    && forall s {:trigger DiskKept(g, secs, true, s)} | 0 <= s < |disk| && DiskKept(g, secs, true, s) :: disk'[s] == disk[s]
  }

  lemma OthersKeptTwice(g: Layout, d0: seq<Sector>, d1: seq<Sector>, d2: seq<Sector>, secs1: seq<int>, secs2: seq<int>)
    requires OthersKept(g, d0, d1, secs1) && OthersKept(g, d1, d2, secs2) && secs1 <= secs2
    ensures OthersKept(g, d0, d2, secs2)
  {
    forall s | 0 <= s < |d0| && DiskKept(g, secs2, true, s)
      ensures d2[s] == d0[s]
    {
      assert DiskKept(g, secs1, true, s) by {
        if s - g.start in secs1 {
          var i :| 0 <= i < |secs1| && secs1[i] == s - g.start;
          assert secs2[i] == s - g.start;
        }
      }
    }
  }

  /** What an operation on one file may do to the volume: take free clusters, and write the file's own sectors.
      The quantifier keeps the definition folded wherever `Unfold` is not mentioned. */
  ghost predicate OnlyThisFile(g: Layout, fat0: seq<int>, chain0: seq<int>, disk0: seq<Sector>,
                               fat: seq<int>, chain: seq<int>, disk: seq<Sector>)
  {
    forall k {:trigger Unfold(k)} | Unfold(k) ::
      IsChain(g, fat, chain) && Grown(g, fat0, chain0, fat, chain) && OthersKept(g, disk0, disk, g.FileSecs(chain))
  }

  lemma OneOperation(g: Layout, fat0: seq<int>, chain0: seq<int>, disk0: seq<Sector>,
                     fat: seq<int>, chain: seq<int>, disk: seq<Sector>)
    requires IsChain(g, fat, chain) && Grown(g, fat0, chain0, fat, chain) && OthersKept(g, disk0, disk, g.FileSecs(chain))
    ensures OnlyThisFile(g, fat0, chain0, disk0, fat, chain, disk)
  {
  }

  lemma NothingDone(g: Layout, fat: seq<int>, chain: seq<int>, disk: seq<Sector>)
    requires IsChain(g, fat, chain)
    ensures OnlyThisFile(g, fat, chain, disk, fat, chain, disk)
  {
  }

  lemma GrownTwice(g: Layout, f0: seq<int>, c0: seq<int>, f1: seq<int>, c1: seq<int>, f2: seq<int>, c2: seq<int>)
    requires Grown(g, f0, c0, f1, c1) && Grown(g, f1, c1, f2, c2) && IsChain(g, f1, c1)
    ensures Grown(g, f0, c0, f2, c2)
  {
    ChainIsInUse(g, f1, c1);
    forall e | 0 <= e < |f0| && f0[e] != 0 && e !in c0
      ensures f2[e] == f0[e]
    {
      assert f1[e] == f0[e];
    }
    forall e | e in c2
      ensures e in c0 || (0 <= e < |f0| && f0[e] == 0)
    {
      if e !in c1 {
        assert 0 <= e < |f1| && f1[e] == 0;
        if e !in c0 && f0[e] != 0 {
          assert f1[e] == f0[e];
        }
      }
    }
    forall e | 0 <= e < |f0| && f0[e] == 0 && f2[e] != 0
      ensures e in c2
    {
      if f1[e] != 0 {
        assert e in c1;
      }
    }
  }

  /** Two operations on the same file together are one. */
  lemma TwoOperations(g: Layout, f0: seq<int>, c0: seq<int>, d0: seq<Sector>, f1: seq<int>, c1: seq<int>, d1: seq<Sector>,
                      f2: seq<int>, c2: seq<int>, d2: seq<Sector>)
    requires OnlyThisFile(g, f0, c0, d0, f1, c1, d1) && OnlyThisFile(g, f1, c1, d1, f2, c2, d2)
    ensures OnlyThisFile(g, f0, c0, d0, f2, c2, d2)
    ensures c0 <= c2 && Reach(g, f1, c1) == Reach(g, f0, c0)
  {
    assert Unfold(0);
    ReachKept(g, f0, c0, f1, c1);
    GrownTwice(g, f0, c0, f1, c1, f2, c2);
    FileSecsPrefix(g, c1, c2);
    OthersKeptTwice(g, d0, d1, d2, g.FileSecs(c1), g.FileSecs(c2));
  }

  lemma SameReach(g: Layout, f0: seq<int>, c0: seq<int>, d0: seq<Sector>, f: seq<int>, c: seq<int>, d: seq<Sector>)
    requires OnlyThisFile(g, f0, c0, d0, f, c, d)
    ensures Reach(g, f, c) == Reach(g, f0, c0) && |g.FileSecs(c)| <= Reach(g, f, c)
  {
    assert Unfold(0);
    ReachKept(g, f0, c0, f, c);
  }

  lemma OperationGrows(g: Layout, f0: seq<int>, c0: seq<int>, d0: seq<Sector>, f: seq<int>, c: seq<int>, d: seq<Sector>)
    requires OnlyThisFile(g, f0, c0, d0, f, c, d)
    ensures |g.FileSecs(c0)| <= |g.FileSecs(c)|
  {
    assert Unfold(0);
    FileSecsPrefix(g, c0, c);
  }

  /** Moving the FAT about keeps every file. */
  lemma FatsKeepOthers(g: Layout, d0: seq<Sector>, d1: seq<Sector>, secs: seq<int>)
    requires g.Laid(|d0|) && FatsOnly(g, d0, d1)
    ensures OthersKept(g, d0, d1, secs)
  {
  }

  lemma StoredBesideFats(g: Layout, d0: seq<Sector>, d1: seq<Sector>, secs: seq<int>, c: seq<Byte>, except: int)
    requires g.Laid(|d0|) && FatsOnly(g, d0, d1) && DataSectors(g, secs)
    requires Stored(g, d0, secs, c, except)
    ensures Stored(g, d1, secs, c, except)
  {
    forall k | 0 <= k && SECTOR_SIZE * k < |c| && k != except
      ensures OnDisk(g, d1, secs, c, k)
    {
      assert OnDisk(g, d0, secs, c, k) && InData(g, secs, k);
    }
  }

  /** A disk that differs outside a file, or has other files grown, still stores the file. */
  lemma StoredApart(g: Layout, d0: seq<Sector>, d1: seq<Sector>, secs: seq<int>, other: seq<int>, c: seq<Byte>, except: int)
    requires OthersKept(g, d0, d1, other) && DataSectors(g, secs)
    requires forall s | s in secs :: s !in other
    requires Stored(g, d0, secs, c, except)
    ensures Stored(g, d1, secs, c, except)
  {
    forall k | 0 <= k && SECTOR_SIZE * k < |c| && k != except
      ensures OnDisk(g, d1, secs, c, k)
    {
      assert OnDisk(g, d0, secs, c, k) && InData(g, secs, k) && secs[k] in secs;
      assert DiskKept(g, other, true, g.start + secs[k]);
    }
  }

  lemma NotInPart(g: Layout, secs: seq<int>, p: int, n: nat, k: int)
    requires DataSectors(g, secs) && 0 <= p && p + n <= |secs| && 0 <= k < |secs| && !(p <= k < p + n)
    ensures secs[k] !in secs[p..p + n]
  {
    var part := secs[p..p + n];
    forall t | 0 <= t < |part|
      ensures part[t] != secs[k]
    {
      assert part[t] == secs[p + t];
      assert if k < p + t then Differ(secs, k, p + t) else Differ(secs, p + t, k);
    }
  }

  /** Contents `c'` agree with the buffer in sectors p .. p + n and with `c` elsewhere; folded. */
  ghost predicate Agree(p: int, n: int, b: seq<Byte>, from: int, c: seq<Byte>, c': seq<Byte>) {
    && 0 <= p && 0 <= n && 0 <= from && from + SECTOR_SIZE * n <= |b|
    && forall x {:trigger Unfold(x)} | Unfold(x) ::
         && (forall t | 0 <= t < n :: Piece(c', p + t) <= BufSector(b, from, t))
         && (forall k | 0 <= k && SECTOR_SIZE * k < |c'| && !(p <= k < p + n) ::
               SECTOR_SIZE * k < |c| && Piece(c', k) == Piece(c, k))
  }

  /** Writing sectors p .. p + n of a file stores the contents that agree with the buffer there and with the old
      contents elsewhere. */
  lemma WriteStores(g: Layout, d0: seq<Sector>, secs0: seq<int>, d1: seq<Sector>, secs1: seq<int>, p: int, n: nat,
                    b: seq<Byte>, from: int, b0: seq<Byte>, c0: seq<Byte>, c1: seq<Byte>, except: int)
    requires secs0 <= secs1 && DataSectors(g, secs1) && 0 <= p && p + n <= |secs1|
    requires Exchanged(g, secs1[p..p + n], from, d0, b0, d1, b, true)
    requires Stored(g, d0, secs0, c0, except) && (except == -1 || p <= except < p + n)
    requires Agree(p, n, b, from, c0, c1)
    ensures Stored(g, d1, secs1, c1, -1)
  {
    assert Unfold(0);
    forall k | 0 <= k && SECTOR_SIZE * k < |c1|
      ensures OnDisk(g, d1, secs1, c1, k)
    {
      if p <= k < p + n {
        var piece := BufSector(b, from, k - p);
        assert Piece(c1, p + (k - p)) <= piece;
        StoredInside(g, d0, d1, secs1, p, n, b, from, b0, c1, k);
      } else {
        assert Piece(c1, k) == Piece(c0, k);
        KeptOnDisk(g, d0, secs0, d1, secs1, p, n, b, from, b0, c0, c1, except, k);
      }
    }
  }

  lemma StoredInside(g: Layout, d0: seq<Sector>, d1: seq<Sector>, secs: seq<int>, p: int, n: nat,
                     b: seq<Byte>, from: int, b0: seq<Byte>, c: seq<Byte>, k: int)
    requires 0 <= p <= k < p + n <= |secs|
    requires Exchanged(g, secs[p..p + n], from, d0, b0, d1, b, true)
    requires 0 <= from && from + SECTOR_SIZE * n <= |b| && Piece(c, k) <= BufSector(b, from, k - p)
    ensures OnDisk(g, d1, secs, c, k)
  {
    assert secs[p..p + n][k - p] == secs[k];
  }

  lemma KeptOutside(g: Layout, d0: seq<Sector>, d1: seq<Sector>, secs: seq<int>, p: int, n: nat,
                    b: seq<Byte>, from: int, b0: seq<Byte>, k: int)
    requires DataSectors(g, secs) && 0 <= p && p + n <= |secs| && 0 <= k < |secs| && !(p <= k < p + n)
    requires Exchanged(g, secs[p..p + n], from, d0, b0, d1, b, true)
    requires 0 <= g.start + secs[k] < |d0|
    ensures |d1| == |d0| && d1[g.start + secs[k]] == d0[g.start + secs[k]]
  {
    NotInPart(g, secs, p, n, k);
    assert InData(g, secs, k);
    assert DiskKept(g, secs[p..p + n], true, g.start + secs[k]);
  }

  lemma KeptOnDisk(g: Layout, d0: seq<Sector>, secs0: seq<int>, d1: seq<Sector>, secs1: seq<int>, p: int, n: nat,
                   b: seq<Byte>, from: int, b0: seq<Byte>, c0: seq<Byte>, c1: seq<Byte>, except: int, k: int)
    requires secs0 <= secs1 && DataSectors(g, secs1) && 0 <= p && p + n <= |secs1|
    requires Exchanged(g, secs1[p..p + n], from, d0, b0, d1, b, true)
    requires Stored(g, d0, secs0, c0, except) && k != except
    requires 0 <= k && SECTOR_SIZE * k < |c0| && !(p <= k < p + n) && Piece(c1, k) == Piece(c0, k)
    ensures OnDisk(g, d1, secs1, c1, k)
  {
    assert OnDisk(g, d0, secs0, c0, k);
    assert secs0[k] == secs1[k];
    KeptOutside(g, d0, d1, secs1, p, n, b, from, b0, k);
  }

  /** Reading sectors p .. p + n delivers the contents. */
  lemma ReadDelivers(g: Layout, d0: seq<Sector>, d1: seq<Sector>, secs: seq<int>, p: int, n: nat,
                     b: seq<Byte>, from: int, b0: seq<Byte>, c: seq<Byte>, except: int, t: int)
    requires 0 <= p && p + n <= |secs| && 0 <= t < n
    requires Exchanged(g, secs[p..p + n], from, d0, b0, d1, b, false)
    requires Stored(g, d1, secs, c, except) && p + t != except
    ensures 0 <= from && from + SECTOR_SIZE * n <= |b|
    ensures Piece(c, p + t) <= BufSector(b, from, t)
  {
    var part := secs[p..p + n];
    var piece := BufSector(b, from, t);
    assert part[t] == secs[p + t];
    if SECTOR_SIZE * (p + t) < |c| {
      assert OnDisk(g, d1, secs, c, p + t);
    } else {
      assert Piece(c, p + t) == [];
    }
  }

  /** A write that stays inside one sector changes that piece and no other. */
  lemma SpliceInSector(c: seq<Byte>, at: int, data: seq<Byte>, k: int)
    requires 0 <= at <= |c| && 0 <= k && at / SECTOR_SIZE * SECTOR_SIZE <= at
    requires at + |data| <= SECTOR_SIZE * (at / SECTOR_SIZE + 1) && k != at / SECTOR_SIZE
    ensures Piece(Splice(c, at, data), k) == Piece(c, k)
    ensures SECTOR_SIZE * k < |Splice(c, at, data)| ==> SECTOR_SIZE * k < |c|
  {
    var c', cur := Splice(c, at, data), at / SECTOR_SIZE;
    if k < cur {
      assert SECTOR_SIZE * (k + 1) <= SECTOR_SIZE * cur <= at;
      assert c'[SECTOR_SIZE * k..SECTOR_SIZE * (k + 1)] == c[SECTOR_SIZE * k..SECTOR_SIZE * (k + 1)];
    } else {
      assert SECTOR_SIZE * (cur + 1) <= SECTOR_SIZE * k;
      PieceSame(c', c, k);
    }
  }

  /** Pieces agree where the bytes do. */
  lemma PieceSame(c': seq<Byte>, c: seq<Byte>, k: int)
    requires 0 <= k
    requires |c'| == |c| || (|c'| <= SECTOR_SIZE * k && |c| <= SECTOR_SIZE * k)
    requires forall x | SECTOR_SIZE * k <= x < |c| && x < |c'| :: c'[x] == c[x]
    ensures Piece(c', k) == Piece(c, k)
  {
  }

  /** A buffer after `data` has been copied to offset `at`. */
  function Patched(b: seq<Byte>, at: int, data: seq<Byte>): (r: seq<Byte>)
    requires 0 <= at && at + |data| <= |b|
    ensures |r| == |b|
  {
    b[..at] + data + b[at + |data|..]
  }

  /** Patching the cached sector is writing into the file, as far as the other sectors are concerned. */
  lemma PatchIsSplice(g: Layout, disk: seq<Sector>, secs: seq<int>, c: seq<Byte>, at: int, data: seq<Byte>,
                      cache: seq<Byte>, except: int)
    requires 0 <= at <= |c| && |cache| == SECTOR_SIZE && at % SECTOR_SIZE + |data| <= SECTOR_SIZE
    requires Piece(c, at / SECTOR_SIZE) <= cache
    requires Stored(g, disk, secs, c, except) && (except == -1 || except == at / SECTOR_SIZE)
    ensures Piece(Splice(c, at, data), at / SECTOR_SIZE) <= Patched(cache, at % SECTOR_SIZE, data)
    ensures Stored(g, disk, secs, Splice(c, at, data), at / SECTOR_SIZE)
  {
    var c', cur := Splice(c, at, data), at / SECTOR_SIZE;
    var p, q := Piece(c', cur), Patched(cache, at % SECTOR_SIZE, data);
    forall y | 0 <= y < |p|
      ensures p[y] == q[y]
    {
      SpliceAt(c, at, data, SECTOR_SIZE * cur + y);
      assert p[y] == c'[SECTOR_SIZE * cur + y];
      if !(at % SECTOR_SIZE <= y < at % SECTOR_SIZE + |data|) {
        assert Piece(c, cur)[y] == c[SECTOR_SIZE * cur + y];
      }
    }
    forall k | 0 <= k && SECTOR_SIZE * k < |c'| && k != cur
      ensures OnDisk(g, disk, secs, c', k)
    {
      SpliceInSector(c, at, data, k);
      assert OnDisk(g, disk, secs, c, k);
    }
  }

  lemma TailOf(k: int, n: int)
    requires 0 <= k && 0 <= n < SECTOR_SIZE
    ensures (SECTOR_SIZE * k + n) / SECTOR_SIZE == k && (SECTOR_SIZE * k + n) % SECTOR_SIZE == n
    ensures SECTOR_SIZE * k / SECTOR_SIZE == k && SECTOR_SIZE * k % SECTOR_SIZE == 0
  {
  }

  /** Cutting off the end of a file keeps what is stored. */
  lemma CutStored(g: Layout, disk: seq<Sector>, secs: seq<int>, c: seq<Byte>, n: int, except: int)
    requires 0 <= n <= |c| && Stored(g, disk, secs, c, except)
    ensures Stored(g, disk, secs, c[..n], except)
    ensures forall k | 0 <= k :: Piece(c[..n], k) <= Piece(c, k)
  {
    forall k | 0 <= k
      ensures Piece(c[..n], k) <= Piece(c, k)
    {
    }
    forall k | 0 <= k && SECTOR_SIZE * k < n && k != except
      ensures OnDisk(g, disk, secs, c[..n], k)
    {
      assert OnDisk(g, disk, secs, c, k);
    }
  }

  /** Stepping through a sector by bytes. */
  lemma StepInSector(at: int, n: int)
    requires 0 <= at && 0 <= n && at % SECTOR_SIZE + n <= SECTOR_SIZE
    ensures at % SECTOR_SIZE + n == SECTOR_SIZE ==>
      (at + n) / SECTOR_SIZE == at / SECTOR_SIZE + 1 && (at + n) % SECTOR_SIZE == 0
    ensures at % SECTOR_SIZE + n < SECTOR_SIZE ==>
      (at + n) / SECTOR_SIZE == at / SECTOR_SIZE && (at + n) % SECTOR_SIZE == at % SECTOR_SIZE + n
  {
  }

  /** Writing whole sectors replaces whole pieces. */
  lemma SpliceSectors(c: seq<Byte>, k: int, n: int, data: seq<Byte>, b: seq<Byte>, from: int)
    requires 0 <= k && 0 <= n && SECTOR_SIZE * k <= |c| && |data| == SECTOR_SIZE * n
    requires 0 <= from && from + SECTOR_SIZE * n <= |b| && data == b[from..from + SECTOR_SIZE * n]
    ensures forall t | 0 <= t < n :: Piece(Splice(c, SECTOR_SIZE * k, data), k + t) <= BufSector(b, from, t)
    ensures forall j | 0 <= j && SECTOR_SIZE * j < |Splice(c, SECTOR_SIZE * k, data)| && !(k <= j < k + n) ::
      SECTOR_SIZE * j < |c| && Piece(Splice(c, SECTOR_SIZE * k, data), j) == Piece(c, j)
  {
    var c' := Splice(c, SECTOR_SIZE * k, data);
    forall t | 0 <= t < n
      ensures Piece(c', k + t) <= BufSector(b, from, t)
    {
      SpliceSector(c, k, n, data, b, from, t);
    }
    forall j | 0 <= j && SECTOR_SIZE * j < |c'| && !(k <= j < k + n)
      ensures SECTOR_SIZE * j < |c| && Piece(c', j) == Piece(c, j)
    {
      SpliceElsewhere(c, k, n, data, j);
    }
  }

  /** What writing whole sectors from a buffer makes of the contents, piece by piece. */
  lemma MovedSectors(c: seq<Byte>, k: int, n: int, b: seq<Byte>, from: int) returns (c': seq<Byte>)
    requires 0 <= k && 0 <= n && SECTOR_SIZE * k <= |c| && 0 <= from && from + SECTOR_SIZE * n <= |b|
    ensures Moved(c, SECTOR_SIZE * k, b, from, SECTOR_SIZE * n, true, c', b)
    ensures Agree(k, n, b, from, c, c')
  {
    var data := b[from..from + SECTOR_SIZE * n];
    SpliceSectors(c, k, n, data, b, from);
    c' := Splice(c, SECTOR_SIZE * k, data);
  }

  lemma SpliceSector(c: seq<Byte>, k: int, n: int, data: seq<Byte>, b: seq<Byte>, from: int, t: int)
    requires 0 <= k && 0 <= t < n && SECTOR_SIZE * k <= |c| && |data| == SECTOR_SIZE * n
    requires 0 <= from && from + SECTOR_SIZE * n <= |b| && data == b[from..from + SECTOR_SIZE * n]
    ensures Piece(Splice(c, SECTOR_SIZE * k, data), k + t) == BufSector(b, from, t)
  {
    var c', at, lo := Splice(c, SECTOR_SIZE * k, data), SECTOR_SIZE * (k + t), SECTOR_SIZE * t;
    var p, q := c'[at..at + SECTOR_SIZE], BufSector(b, from, t);
    forall y | 0 <= y < SECTOR_SIZE
      ensures p[y] == q[y]
    {
      SpliceAt(c, SECTOR_SIZE * k, data, at + y);
      assert data[lo + y] == b[from + (lo + y)];
    }
    assert p == q;
  }

  lemma SpliceElsewhere(c: seq<Byte>, k: int, n: int, data: seq<Byte>, j: int)
    requires 0 <= k && 0 <= n && SECTOR_SIZE * k <= |c| && |data| == SECTOR_SIZE * n && 0 <= j && !(k <= j < k + n)
    requires SECTOR_SIZE * j < |Splice(c, SECTOR_SIZE * k, data)|
    ensures SECTOR_SIZE * j < |c| && Piece(Splice(c, SECTOR_SIZE * k, data), j) == Piece(c, j)
  {
    var c' := Splice(c, SECTOR_SIZE * k, data);
    if j < k {
      assert c'[SECTOR_SIZE * j..SECTOR_SIZE * (j + 1)] == c[SECTOR_SIZE * j..SECTOR_SIZE * (j + 1)];
    } else {
      PieceSame(c', c, j);
    }
  }

  /** Whole sectors of the file, read one behind the other, are a stretch of its contents. */
  lemma {:induction false} PiecesJoin(c: seq<Byte>, k: int, n: int, b: seq<Byte>, from: int)
    requires 0 <= k && 0 <= n && SECTOR_SIZE * (k + n) <= |c|
    requires 0 <= from && from + SECTOR_SIZE * n <= |b|
    requires forall t | 0 <= t < n :: Piece(c, k + t) <= BufSector(b, from, t)
    ensures b[from..from + SECTOR_SIZE * n] == c[SECTOR_SIZE * k..SECTOR_SIZE * (k + n)]
  {
    if n > 0 {
      PiecesJoin(c, k, n - 1, b, from);
      var end, at := from + SECTOR_SIZE * (n - 1), SECTOR_SIZE * (k + n - 1);
      var piece, sec := Piece(c, k + (n - 1)), BufSector(b, from, n - 1);
      assert piece <= sec;
      assert b[end..end + SECTOR_SIZE] == sec == piece == c[at..at + SECTOR_SIZE];
      assert b[from..end + SECTOR_SIZE] == b[from..end] + b[end..end + SECTOR_SIZE];
      assert c[SECTOR_SIZE * k..at + SECTOR_SIZE] == c[SECTOR_SIZE * k..at] + c[at..at + SECTOR_SIZE];
    }
  }

  /** What reading leaves of a buffer. */
  lemma ReadPatches(g: Layout, part: seq<int>, from: int, d0: seq<Sector>, b0: seq<Byte>, d1: seq<Sector>, b: seq<Byte>)
    requires Exchanged(g, part, from, d0, b0, d1, b, false)
    ensures b == Patched(b0, from, b[from..from + SECTOR_SIZE * |part|])
  {
    var r := Patched(b0, from, b[from..from + SECTOR_SIZE * |part|]);
    forall x | 0 <= x < |b|
      ensures b[x] == r[x]
    {
      if !(from <= x < from + SECTOR_SIZE * |part|) {
        assert BufKept(from, SECTOR_SIZE * |part|, false, x);
      }
    }
  }

  /** Reading whole sectors of a file delivers a stretch of its contents, and leaves the rest of the buffer alone. */
  lemma ReadDeliversAll(g: Layout, d0: seq<Sector>, d1: seq<Sector>, secs: seq<int>, p: int, n: nat,
                        b: seq<Byte>, from: int, b0: seq<Byte>, c: seq<Byte>)
    requires 0 <= p && p + n <= |secs| && SECTOR_SIZE * (p + n) <= |c|
    requires Exchanged(g, secs[p..p + n], from, d0, b0, d1, b, false) && Stored(g, d1, secs, c, -1)
    ensures 0 <= from && from + SECTOR_SIZE * n <= |b0|
    ensures b == Patched(b0, from, c[SECTOR_SIZE * p..SECTOR_SIZE * (p + n)])
  {
    forall t | 0 <= t < n
      ensures Piece(c, p + t) <= BufSector(b, from, t)
    {
      ReadDelivers(g, d0, d1, secs, p, n, b, from, b0, c, -1, t);
    }
    PiecesJoin(c, p, n, b, from);
    ReadPatches(g, secs[p..p + n], from, d0, b0, d1, b);
  }

  lemma SpliceNothing(c: seq<Byte>, at: int)
    requires 0 <= at <= |c|
    ensures Splice(c, at, []) == c
  {
  }

  /** `n` bytes have been moved between offset `at` of contents `c` and offset `from` of a buffer.
      The quantifier keeps the definition folded wherever `Unfold` is not mentioned. */
  ghost predicate Moved(c: seq<Byte>, at: int, b: seq<Byte>, from: int, n: int, write: bool, c': seq<Byte>, b': seq<Byte>) {
    && 0 <= at <= |c| && 0 <= n && 0 <= from && from + n <= |b| && (!write ==> at + n <= |c|)
    && |b'| == |b| && |c'| == (if at + n > |c| then at + n else |c|)
    && (if write then b' == b else c' == c)
    && forall k {:trigger Unfold(k)} | Unfold(k) ::
         if write then c' == Splice(c, at, b[from..from + n]) else b' == Patched(b, from, c[at..at + n])
  }

  lemma MovedNothing(c: seq<Byte>, at: int, b: seq<Byte>, from: int, write: bool)
    requires 0 <= at <= |c| && 0 <= from <= |b|
    ensures Moved(c, at, b, from, 0, write, c, b)
  {
    SpliceNothing(c, at);
    assert Patched(b, from, []) == b;
    assert b[from..from + 0] == [] && c[at..at + 0] == [];
  }

  lemma WrittenTwice(c: seq<Byte>, at: int, b: seq<Byte>, from: int, n: int, c1: seq<Byte>, b1: seq<Byte>,
                     at1: int, from1: int, m: int, c2: seq<Byte>, b2: seq<Byte>, total: int)
    requires Moved(c, at, b, from, n, true, c1, b1) && Moved(c1, at1, b1, from1, m, true, c2, b2)
    requires at1 == at + n && from1 == from + n && total == n + m
    ensures Moved(c, at, b, from, total, true, c2, b2)
  {
    assert Unfold(0);
    SpliceTwice(c, at, b[from..from1], b[from1..from + total]);
    assert b[from..from1] + b[from1..from + total] == b[from..from + total];
  }

  lemma ReadTwice(c: seq<Byte>, at: int, b: seq<Byte>, from: int, n: int, c1: seq<Byte>, b1: seq<Byte>,
                  at1: int, from1: int, m: int, c2: seq<Byte>, b2: seq<Byte>, total: int)
    requires Moved(c, at, b, from, n, false, c1, b1) && Moved(c1, at1, b1, from1, m, false, c2, b2)
    requires at1 == at + n && from1 == from + n && total == n + m
    ensures Moved(c, at, b, from, total, false, c2, b2)
  {
    assert Unfold(0);
    var x, y := c[at..at1], c[at1..at + total];
    PatchTwice(b, from, x, y);
    assert c[at..at + total] == x + y;
    assert b1 == Patched(b, from, x);
    assert b2 == Patched(b1, from1, y);
  }

  /** Two moves in a row are one. */
  lemma MovedTwice(c: seq<Byte>, at: int, b: seq<Byte>, from: int, n: int, write: bool, c1: seq<Byte>, b1: seq<Byte>,
                   at1: int, from1: int, m: int, c2: seq<Byte>, b2: seq<Byte>, total: int)
    requires Moved(c, at, b, from, n, write, c1, b1) && Moved(c1, at1, b1, from1, m, write, c2, b2)
    requires at1 == at + n && from1 == from + n && total == n + m
    ensures Moved(c, at, b, from, total, write, c2, b2)
  {
    if write {
      WrittenTwice(c, at, b, from, n, c1, b1, at1, from1, m, c2, b2, total);
    } else {
      ReadTwice(c, at, b, from, n, c1, b1, at1, from1, m, c2, b2, total);
    }
  }

  lemma PatchTwice(b: seq<Byte>, at: int, x: seq<Byte>, y: seq<Byte>)
    requires 0 <= at && at + |x| + |y| <= |b|
    ensures Patched(Patched(b, at, x), at + |x|, y) == Patched(b, at, x + y)
  {
  }
}
