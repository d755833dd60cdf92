/** Runs of file operations carried out on a volume, and runs that show what goes wrong. */
module VolumeRuns {
  import opened Sectors
  import opened Geometry
  import opened FatTable
  import opened Chains
  import opened FatFiles
  import opened FatIo
  import opened ChainRuns
  import ByteFile
  import FileContents
  import opened Folding

  /** What is done to the `i`-th file. */
  datatype Command =
    | GrowFile(i: nat)                 // one more cluster, if there is one
    | CutFile(i: nat, k: nat)          // down to `k` clusters, if it has as many
    | RemoveFile(i: nat)
    | CloseFile(i: nat, size: nat)     // after writing

  ghost function ChainsOf(files: seq<FatFile>): (r: seq<seq<int>>)
    reads files
    ensures |r| == |files|
  {
    seq(|files|, (i: int) requires 0 <= i < |files| reads files => files[i].chain)
  }

  ghost function TableOf(v: Volume, files: seq<FatFile>): Table
    reads v, files
  {
    Table(v.fat, ChainsOf(files))
  }

  /** The files of the volume: different ones, chains that share no cluster. */
  ghost predicate FilesOf(v: Volume, files: seq<FatFile>)
    reads v, files
  {
    && v.Valid() && v.fat[0] >= EOF_MARK
    && (forall i, j | 0 <= i < j < |files| :: files[i] != files[j])
    && (forall i | 0 <= i < |files| :: files[i].firstcluster == First(files[i].chain))
    && Family(v.g, v.fat, ChainsOf(files))
  }

  /** No operation touches the entry of cluster 0. */
  lemma EntryZeroStays(g: Layout, t: Table, op: Op)
    requires SmallVolume(g) && Family(g, t.links, t.files) && Enabled(g, t, op) && 0 < |t.links|
    ensures |After(t, op).links| == |t.links| && After(t, op).links[0] == t.links[0]
  {
    var chain := t.files[op.i];
    ChainIsInUse(g, t.links, chain);
    assert forall i | 0 <= i < |chain| :: chain[i] in chain;
  }

  /** What an operation on the `i`-th file amounts to for all of them. */
  lemma OneDone(g: Layout, t: Table, op: Op, links: seq<int>, chain: seq<int>)
    requires SmallVolume(g) && Family(g, t.links, t.files) && Enabled(g, t, op) && 0 < |t.links|
    requires After(t, op) == Table(links, t.files[op.i := chain])
    ensures Family(g, links, t.files[op.i := chain]) && |links| == |t.links| && links[0] == t.links[0]
    ensures AllEnabled(g, t, [op]) && AfterAll(g, t, [op]) == After(t, op)
  {
    StepKeepsFamily(g, t, op);
    EntryZeroStays(g, t, op);
  }

  /** The last cluster of a file, found by following its links. */
  method LastCluster(v: Volume, f: FatFile) returns (last: int)
    requires v.Valid() && f.OnChain(v)
    modifies v`disk, v`slots
    ensures v.Valid() && v.fat == old(v.fat) && last == if f.chain == [] then 0 else f.chain[|f.chain| - 1]
    ensures old(v.Counted()) ==> v.Counted()
  {
    last := 0;
    var c := f.firstcluster;
    ghost var k := 0;
    while c != 0
      invariant v.Valid() && v.fat == old(v.fat) && 0 <= k <= |f.chain|
      invariant c == At(f.chain, k) && last == (if k == 0 then 0 else f.chain[k - 1])
      decreases |f.chain| - k
    {
      assert Linked(v.g, v.fat, f.chain, k);
      last := c;
      c := v.GetNextCluster(c);
      k := k + 1;
    }
    CutEnd(v.g, v.fat, f.chain, k, k);
    assert f.chain[k..k] == [];
  }

  /** One more cluster for a file, unless the disk is full. */
  method Grow(v: Volume, f: FatFile) returns (cluster: int)
    requires v.Valid() && f.OnChain(v)
    modifies f`firstcluster, f`chain, v`disk, v`slots, v`freecount, v`nextfree, v`fat
    ensures v.Valid() && f.OnChain(v) && (old(v.Counted()) ==> v.Counted())
    ensures cluster == 0 <==> FreeSet(v.g, old(v.fat)) == {}
    ensures cluster == 0 ==> v.fat == old(v.fat) && f.chain == old(f.chain)
    ensures cluster != 0 ==> cluster in FreeSet(v.g, old(v.fat))
    ensures cluster != 0 ==> v.fat == Appended(old(v.fat), old(f.chain), cluster) && f.chain == old(f.chain) + [cluster]
  {
    var last := LastCluster(v, f);
    var sector;
    cluster, sector := f.NextWriteCluster(v, last, |f.chain|);
  }

  /** Cut a file down to `k` clusters, by way of a handle positioned behind them; not if it has fewer. */
  method CutDown(v: Volume, f: FatFile, k: nat) returns (cut: bool)
    requires v.Valid() && f.OnChain(v) && v.fat[0] >= EOF_MARK
    modifies f`chain, v`disk, v`slots, v`freecount, v`fat
    ensures v.Valid() && f.OnChain(v) && (old(v.Counted()) ==> v.Counted()) && (cut <==> 0 < k <= |old(f.chain)|)
    ensures if cut then v.fat == Cut(old(v.fat), old(f.chain), k) && f.chain == old(f.chain)[..k]
            else v.fat == old(v.fat) && f.chain == old(f.chain)
  {
    assert f.chain != [] ==> Linked(v.g, v.fat, f.chain, 0);
    cut := false;
    if k == 0 || f.firstcluster == 0 {
      return;
    }
    var handle := OpenFile(v, f.firstcluster, f.chain);
    v.g.SpanIsProduct(k);
    var r := FatSeek(handle, v, k * v.g.perCluster);
    SoughtBehind(v.g, f.chain, k);
    if r != 0 {
      return;
    }
    PlacedBehind(v.g, handle.chain, CursorOf(handle), handle.at, k);
    handle.Truncate(v, k);
    f.chain := handle.chain;
    cut := true;
  }

  /** A seek behind `k` clusters is reported just when there are fewer. */
  lemma SoughtBehind(g: Layout, chain: seq<int>, k: nat)
    requires 1 <= g.perCluster && k > 0 && chain != []
    ensures k * g.perCluster > 0 && k * g.perCluster == g.Span(k)
    ensures k * g.perCluster <= Capacity(g, chain) <==> k <= |chain|
    ensures k > |chain| ==> (k * g.perCluster - 1) / g.perCluster != 0
  {
    g.SpanIsProduct(k);
    if k <= |chain| {
      g.SpanMonotone(k, |chain|);
      g.SpanMonotone(0, k);
    } else {
      g.SpanMonotone(|chain|, k);
      g.SpanMonotone(1, |chain|);
      SplitPosition(g, k * g.perCluster - 1, 1);
    }
  }

  /** Behind `k` clusters, the last access was to the last of them. */
  lemma PlacedBehind(g: Layout, chain: seq<int>, cur: Cursor, at: nat, k: nat)
    requires 1 <= g.perCluster && 0 < k <= |chain| && Placed(g, chain, cur, at)
    requires Position(g, cur.numsec, at) == g.Span(k)
    ensures cur.cluster == chain[k - 1]
  {
    SpansInOrder(g, 0, k);
    SpansInOrder(g, at + 1, k);
    SpansInOrder(g, k, at);
  }

  lemma SpansInOrder(g: Layout, j: nat, k: nat)
    ensures j <= k ==> g.Span(j) <= g.Span(k)
    ensures j < k ==> g.Span(j) + g.perCluster <= g.Span(k)
  {
    if j <= k {
      g.SpanMonotone(j, k);
    }
  }

  /** What the command asks for and what it then is for the chains; nothing if it cannot be done. */
  ghost predicate Amounts(t: Table, cmd: Command, full: bool, ops: seq<Op>)
    requires cmd.i < |t.files|
  {
    match cmd
    case GrowFile(i) => if full then ops == [] else exists c :: ops == [Op.Grow(i, c)]
    case CutFile(i, k) => ops == if 0 < k <= |t.files[i]| then [Op.Shrink(i, k)] else []
    case RemoveFile(i) => ops == [Op.Delete(i)]
    case CloseFile(i, size) => ops == [Op.Close(i, size)]
  }

  /** Carry out one command; to the chains of all files it is an operation of `ChainRuns`. */
  method Carry(v: Volume, files: seq<FatFile>, cmd: Command) returns (ghost ops: seq<Op>)
    requires FilesOf(v, files) && cmd.i < |files|
    modifies files, v`disk, v`slots, v`freecount, v`nextfree, v`fat
    ensures FilesOf(v, files) && (old(v.Counted()) ==> v.Counted())
    ensures Amounts(old(TableOf(v, files)), cmd, FreeSet(v.g, old(v.fat)) == {}, ops)
    ensures AllEnabled(v.g, old(TableOf(v, files)), ops)
    ensures TableOf(v, files) == AfterAll(v.g, old(TableOf(v, files)), ops)
  {
    ghost var t := TableOf(v, files);
    var f := files[cmd.i];
    assert t.files[cmd.i] == f.chain && f.OnChain(v);
    ghost var op: Op;
    ops := [];
    match cmd {
      case GrowFile(i) =>
        var cluster := Grow(v, f);
        if cluster != 0 {
          op := Op.Grow(i, cluster);
          ops := [op];
        }
      case CutFile(i, k) =>
        var cut := CutDown(v, f, k);
        if cut {
          op := Op.Shrink(i, k);
          ops := [op];
        }
      case RemoveFile(i) =>
        op := Op.Delete(i);
        ops := [op];
        f.Remove(v);
      case CloseFile(i, size) =>
        op := Op.Close(i, size);
        ops := [op];
        assert Zeroed(t.links, t.files[i][..0]) == t.links;
        f.CloseWrite(v, size);
    }
    assert ChainsOf(files) == t.files[cmd.i := f.chain];
    if ops != [] {
      OneDone(v.g, t, op, v.fat, f.chain);
    } else {
      assert t.files[cmd.i := f.chain] == t.files;
    }
  }

  lemma {:induction false} RunsJoin(g: Layout, t: Table, a: seq<Op>, b: seq<Op>)
    requires AllEnabled(g, t, a) && AllEnabled(g, AfterAll(g, t, a), b)
    ensures AllEnabled(g, t, a + b) && AfterAll(g, t, a + b) == AfterAll(g, AfterAll(g, t, a), b)
    decreases |a|
  {
    if a == [] {
      assert a + b == b;
    } else {
      RunsJoin(g, After(t, a[0]), a[1..], b);
      assert (a + b)[0] == a[0] && (a + b)[1..] == a[1..] + b;
    }
  }

  /** Carry out a run of commands on the files of a volume: the table in the cached FAT and the chains of the handles are
      what the run of operations makes of them, so all files stay chains that share no cluster, clusters are conserved
      but for those leaked, and an exact free counter stays exact. */
  method CarryAll(v: Volume, files: seq<FatFile>, cmds: seq<Command>) returns (ghost ops: seq<Op>)
    requires FilesOf(v, files) && forall j | 0 <= j < |cmds| :: cmds[j].i < |files|
    modifies files, v`disk, v`slots, v`freecount, v`nextfree, v`fat
    ensures FilesOf(v, files) && AllEnabled(v.g, old(TableOf(v, files)), ops) && (old(v.Counted()) ==> v.Counted())
    ensures TableOf(v, files) == AfterAll(v.g, old(TableOf(v, files)), ops)
    ensures FreeCount(v.g, v.fat) + Total(ChainsOf(files)) + AllLeaked(v.g, old(TableOf(v, files)), ops)
         == FreeCount(v.g, old(v.fat)) + Total(old(ChainsOf(files)))
  {
    ghost var t := TableOf(v, files);
    ops := [];
    for j := 0 to |cmds|
      invariant FilesOf(v, files) && AllEnabled(v.g, t, ops) && TableOf(v, files) == AfterAll(v.g, t, ops)
      invariant old(v.Counted()) ==> v.Counted()
    {
      ghost var more;
      more := Carry(v, files, cmds[j]);
      RunsJoin(v.g, t, ops, more);
      ops := ops + more;
    }
    RunKeeps(v.g, t, ops);
  }

  /** A handle whose first write gives the file its only cluster, seeks one sector beyond the file: the seek goes
      through. The same seek with a handle that has just been opened is reported. */
  method UnreportedSeek(v: Volume, buf: array<Byte>) returns (f: FatFile, r: int, again: int)
    requires v.Valid() && v.fat[0] >= EOF_MARK && FreeSet(v.g, v.fat) != {} && buf.Length >= SECTOR_SIZE
    modifies v`disk, v`slots, v`freecount, v`nextfree, v`fat, buf
    ensures v.Valid() && fresh(f) && |f.chain| == 1 && v.g.perCluster + 1 > Capacity(v.g, f.chain)
    ensures r == 0 && again == -1
  {
    f := OpenFile(v, 0, []);
    v.g.SpanMonotone(1, FreeCount(v.g, v.fat));
    var w;
    ghost var job, part;
    w, job, part := FatReadWrite(f, v, 1, buf, 0, true);
    ByteFile.EntryZeroKept(v.g, job.links, job.chain, v.fat, f.chain);
    FirstOfFile(job, v.fat, f.chain, CursorOf(f), f.at);
    SplitPosition(v.g, v.g.perCluster, 2);
    var handle := OpenFile(v, f.firstcluster, f.chain);
    r := FatSeek(f, v, v.g.perCluster + 1);
    again := FatSeek(handle, v, v.g.perCluster + 1);
  }

  /** What a write begins with on a handle whose last transfer was a read past the end: it looks for a cluster behind
      cluster 0. The file loses its chain if and only if it has one and a cluster is free; then the new cluster is all the
      file has, while the old chain stays in use and belongs to no file. */
  method WriteAstray(v: Volume, f: FatFile) returns (cluster: int)
    requires v.Valid() && f.OnChain(v) && f.eof && f.lastcluster == 0
    modifies f`firstcluster, f`chain, v`disk, v`slots, v`freecount, v`nextfree, v`fat
    ensures v.Valid() && f.OnChain(v) && (cluster == 0 <==> FreeSet(v.g, old(v.fat)) == {})
    ensures cluster == 0 ==> f.chain == old(f.chain) && v.fat == old(v.fat)
    ensures cluster != 0 ==> 0 <= cluster < |old(v.fat)| && f.chain == [cluster]
    ensures cluster != 0 ==> v.fat == old(v.fat)[cluster := EOF_MARK]
    ensures cluster != 0 ==> IsChain(v.g, v.fat, old(f.chain)) && Apart(f.chain, old(f.chain))
  {
    ghost var fat, chain := v.fat, f.chain;
    ChainIsInUse(v.g, fat, chain);
    var sector;
    cluster, sector := f.NextWriteCluster(v, f.lastcluster, 0);
    if cluster != 0 {
      ChainFrame(v.g, fat, v.fat, chain);
    }
  }

  /** It takes no more than a read past the end of a file and a write: they cut the file off from its chain. */
  method ReadPastThenWrite(v: Volume, f: FatFile, n: nat, buf: array<Byte>) returns (r: int, cluster: int)
    requires v.Valid() && v.fat[0] >= EOF_MARK && Ready(f, v) && f.chain != [] && FreeSet(v.g, v.fat) != {}
    requires Start(f, v) + n > Capacity(v.g, f.chain) && SECTOR_SIZE * n <= buf.Length
    modifies f, v`disk, v`slots, v`freecount, v`nextfree, v`fat, buf
    ensures v.Valid() && r == n - 1 && f.firstcluster == cluster && f.chain == [cluster]
    ensures IsChain(v.g, v.fat, old(f.chain)) && Apart(f.chain, old(f.chain))
  {
    ghost var job, part;
    r, job, part := FatReadWrite(f, v, n, buf, 0, false);
    cluster := WriteAstray(v, f);
  }

  /** One sector in an empty file: one cluster, and a cluster number that is one too high. */
  lemma FirstOfFile(job: Job, links: seq<int>, chain: seq<int>, cur: Cursor, at: nat)
    requires 1 <= job.g.perCluster && Advanced(job, links, chain, cur, at, 1)
    requires job.chain == [] && job.p == 0 && job.ahead == 0
    ensures |chain| == 1 && cur.clusternum == 1 && Capacity(job.g, chain) == job.g.perCluster
    ensures job.g.perCluster / job.g.perCluster == 1
  {
    SpansInOrder(job.g, 1, if chain == [] then 0 else |chain| - 1);
    assert job.g.Span(1) == job.g.Span(0) + job.g.perCluster;
  }

  /** A new file whose first write fills the disk stays empty, and closing it loses all clusters it got but the first:
      they are in use and belong to no file. So it is with a handle opened without O_TRUNC; with one opened for
      truncation, as by creat, fsync cuts the chain behind its first cluster before it is closed, and nothing is lost. */
  method LeakByFullDisk(v: Volume, data: array<Byte>, count: nat)
    returns (h: ByteFile.FileDesc, w: int, ghost lost: set<int>)
    requires v.Valid() && v.fat[0] >= EOF_MARK && count <= data.Length
    requires count / SECTOR_SIZE > Reach(v.g, v.fat, [])
    modifies v`disk, v`slots, v`freecount, v`nextfree, v`fat, data
    ensures v.Valid() && fresh(h) && w == -24 && h.size == 0 && h.fatfile.chain == []
    ensures |lost| + (if FreeSet(v.g, old(v.fat)) == {} then 0 else 1) == FreeCount(v.g, old(v.fat))
    ensures forall c | c in lost :: c in FreeSet(v.g, old(v.fat)) && v.fat[c] != 0
  {
    h := new ByteFile.FileDesc(v, 0, 0, true, false, [], []);
    w := h.Write(data, count, 0);
    assert Open(0);
    ghost var chain := h.fatfile.chain;
    assert FileContents.OnlyThisFile(v.g, old(v.fat), [], old(v.disk), v.fat, chain, v.disk);
    assert Grown(v.g, old(v.fat), [], v.fat, chain) && IsChain(v.g, v.fat, chain) by { assert Unfold(0); }
    assert h.fatfile.OnChain(v) by { assert Open(0); }
    ghost var rest := if chain == [] then [] else chain[1..];
    Rest(v.g, old(v.fat), v.fat, chain);
    lost := Elems(rest);
    h.fatfile.CloseWrite(v, h.size);
  }

  /** What fsync does to an empty file that was opened with O_TRUNC: ftruncate cuts the chain behind its first cluster, and
      fat_closewrite gives that up too. Nothing is lost. */
  method CloseTruncated(v: Volume, f: FatFile)
    requires v.Valid() && v.fat[0] >= EOF_MARK && Seekable(f, v)
    modifies f, v`disk, v`slots, v`freecount, v`fat
    ensures v.Valid() && f.OnChain(v) && f.chain == [] && (old(v.Counted()) ==> v.Counted())
    ensures v.fat == Zeroed(old(v.fat), old(f.chain))
    ensures FreeCount(v.g, v.fat) == FreeCount(v.g, old(v.fat)) + |old(f.chain)|
  {
    ghost var fat, chain := v.fat, f.chain;
    RemovalCounts(v.g, fat, chain);
    assert chain != [] ==> Linked(v.g, fat, chain, 0);
    var r := FatSeek(f, v, 0);
    f.Truncate(v, if chain == [] then 0 else 1);
    f.CloseWrite(v, 0);
    if chain != [] {
      CutThenZeroed(v.g, fat, chain);
    } else {
      assert Zeroed(fat, chain[..0]) == fat == Zeroed(fat, chain);
    }
  }

  lemma CutThenZeroed(g: Layout, links: seq<int>, chain: seq<int>)
    requires IsChain(g, links, chain) && chain != []
    ensures Zeroed(Cut(links, chain, 1), chain[..1][..1]) == Zeroed(links, chain)
  {
    ChainIsInUse(g, links, chain);
    assert chain == chain[..1] + chain[1..] && chain[..1][..1] == chain[..1];
    assert chain[0] in chain[..1];
  }

  /** What a chain that was free before has behind its first cluster. */
  lemma Rest(g: Layout, links0: seq<int>, links: seq<int>, chain: seq<int>)
    requires SmallVolume(g) && Grown(g, links0, [], links, chain) && IsChain(g, links, chain)
    requires |links| == |links0|
    ensures var rest, first := if chain == [] then [] else chain[1..], chain[..if chain == [] then 0 else 1];
      && |Elems(rest)| + |first| == |chain|
      && forall c | c in Elems(rest) :: c in FreeSet(g, links0) && c < |links| && Zeroed(links, first)[c] != 0
  {
    if chain != [] {
      var rest, first := chain[1..], chain[..1];
      ChainIsAcyclic(g, links, chain);
      ChainIsInUse(g, links, chain);
      DistinctSize(rest);
      forall c | c in Elems(rest)
        ensures c in FreeSet(g, links0) && c < |links| && Zeroed(links, first)[c] != 0
      {
        var j :| 0 <= j < |rest| && rest[j] == c;
        assert chain[j + 1] == c && c in chain && c !in first;
      }
    } else {
      assert Elems([]) == {};
    }
  }
}
