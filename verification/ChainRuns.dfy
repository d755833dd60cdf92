/** Runs of allocations, truncations, removals and closings over all the files of a volume. */
module ChainRuns {
  import opened Geometry
  import opened FatTable
  import opened Chains
  import opened FatFiles

  /** The links of the FAT and the chains of the files that exist. */
  datatype Table = Table(links: seq<int>, files: seq<seq<int>>)

  /** An operation on the `i`-th file. */
  datatype Op =
    | Grow(i: nat, cluster: int)     // next_write_cluster found this free cluster
    | Shrink(i: nat, k: nat)         // fat_truncate behind the k-th cluster
    | Delete(i: nat)                 // fat_remove
    | Close(i: nat, size: nat)       // fat_closewrite

  ghost predicate Enabled(g: Layout, t: Table, op: Op) {
    && op.i < |t.files|
    && (op.Grow? ==> op.cluster in FreeSet(g, t.links))
    && (op.Shrink? ==> 0 < op.k <= |t.files[op.i]|)
  }

  /** What the operation makes of the table; the same values as in the contracts of `FatFile`. */
  ghost function After(t: Table, op: Op): Table
    requires op.i < |t.files| && (op.Shrink? ==> op.k <= |t.files[op.i]|)
  {
    var chain := t.files[op.i];
    match op
    case Grow(i, cluster) => Table(Appended(t.links, chain, cluster), t.files[i := chain + [cluster]])
    case Shrink(i, k) => Table(Cut(t.links, chain, k), t.files[i := chain[..k]])
    case Delete(i) => Table(Zeroed(t.links, chain), t.files[i := []])
    case Close(i, size) =>
      if size == 0 && chain != [] then Table(Zeroed(t.links, chain[..1]), t.files[i := []]) else t
  }

  /** Clusters that an operation takes from a file without freeing them: closing an empty file frees only its first. */
  ghost function Leaked(t: Table, op: Op): nat
    requires op.i < |t.files|
  {
    if op.Close? && op.size == 0 && t.files[op.i] != [] then |t.files[op.i]| - 1 else 0
  }

  ghost function Total(files: seq<seq<int>>): nat {
    if files == [] then 0 else Total(files[..|files| - 1]) + |files[|files| - 1]|
  }

  lemma {:induction false} TotalUpdated(files: seq<seq<int>>, i: nat, ch: seq<int>)
    requires i < |files|
    ensures Total(files[i := ch]) == Total(files) - |files[i]| + |ch|
  {
    var n := |files| - 1;
    if i < n {
      TotalUpdated(files[..n], i, ch);
      assert files[i := ch][..n] == files[..n][i := ch];
    } else {
      assert files[i := ch][..n] == files[..n];
    }
  }

  /** Every operation keeps all files chains that share no cluster, the one it works on and the others. */
  lemma StepKeepsFamily(g: Layout, t: Table, op: Op)
    requires SmallVolume(g) && Family(g, t.links, t.files) && Enabled(g, t, op)
    ensures Family(g, After(t, op).links, After(t, op).files)
  {
    var chain, links' := t.files[op.i], After(t, op).links;
    match op {
      case Grow(i, cluster) =>
        AppendMakesChain(g, t.links, chain, cluster);
        FamilyKept(g, t.links, links', t.files, i, chain + [cluster]);
      case Shrink(i, k) =>
        CutMakesChain(g, t.links, chain, k);
        FamilyKept(g, t.links, links', t.files, i, chain[..k]);
      case Delete(i) =>
        FamilyKept(g, t.links, links', t.files, i, []);
      case Close(i, size) =>
        if size == 0 && chain != [] {
          FamilyKept(g, t.links, links', t.files, i, []);
        }
    }
  }

  /** Clusters only move between files and the free ones, except for those leaked. */
  lemma StepCounts(g: Layout, t: Table, op: Op)
    requires SmallVolume(g) && Family(g, t.links, t.files) && Enabled(g, t, op)
    ensures FreeCount(g, After(t, op).links) + Total(After(t, op).files) + Leaked(t, op)
         == FreeCount(g, t.links) + Total(t.files)
  {
    var chain := t.files[op.i];
    match op {
      case Grow(i, cluster) =>
        AppendCounts(g, t.links, chain, cluster);
        TotalUpdated(t.files, i, chain + [cluster]);
      case Shrink(i, k) =>
        CutCounts(g, t.links, chain, k);
        TotalUpdated(t.files, i, chain[..k]);
      case Delete(i) =>
        RemovalCounts(g, t.links, chain);
        TotalUpdated(t.files, i, []);
      case Close(i, size) =>
        if size == 0 && chain != [] {
          ChainIsAcyclic(g, t.links, chain);
          PartialRemovalCounts(g, t.links, chain, 1);
          TotalUpdated(t.files, i, []);
        }
    }
  }

  /** Cutting a chain frees what it cuts off. */
  lemma CutCounts(g: Layout, links: seq<int>, chain: seq<int>, k: nat)
    requires SmallVolume(g) && IsChain(g, links, chain) && 0 < k <= |chain|
    ensures FreeCount(g, Cut(links, chain, k)) == FreeCount(g, links) + |chain| - k
  {
    ChainIsAcyclic(g, links, chain);
    SuffixIsChain(g, links, chain, k);
    RemovalCounts(g, links, chain[k..]);
    var freed := Zeroed(links, chain[k..]);
    assert Linked(g, links, chain, k - 1) && chain[k - 1] !in chain[k..];
    FreeSetOfUpdate(g, freed, chain[k - 1], EOF_MARK);
  }

  ghost predicate AllEnabled(g: Layout, t: Table, ops: seq<Op>)
    decreases |ops|
  {
    ops == [] || (Enabled(g, t, ops[0]) && AllEnabled(g, After(t, ops[0]), ops[1..]))
  }

  ghost function AfterAll(g: Layout, t: Table, ops: seq<Op>): Table
    requires AllEnabled(g, t, ops)
    decreases |ops|
  {
    if ops == [] then t else AfterAll(g, After(t, ops[0]), ops[1..])
  }

  ghost function AllLeaked(g: Layout, t: Table, ops: seq<Op>): nat
    requires AllEnabled(g, t, ops)
    decreases |ops|
  {
    if ops == [] then 0 else Leaked(t, ops[0]) + AllLeaked(g, After(t, ops[0]), ops[1..])
  }

  /** Over every run: the files stay disjoint chains, and the number of clusters they and the free ones have is
      kept up to those leaked by closing empty files. */
  lemma {:induction false} RunKeeps(g: Layout, t: Table, ops: seq<Op>)
    requires SmallVolume(g) && Family(g, t.links, t.files) && AllEnabled(g, t, ops)
    ensures var t' := AfterAll(g, t, ops);
      && Family(g, t'.links, t'.files)
      && FreeCount(g, t'.links) + Total(t'.files) + AllLeaked(g, t, ops) == FreeCount(g, t.links) + Total(t.files)
    decreases |ops|
  {
    if ops != [] {
      StepKeepsFamily(g, t, ops[0]);
      StepCounts(g, t, ops[0]);
      RunKeeps(g, After(t, ops[0]), ops[1..]);
    }
  }

  ghost function InUse(g: Layout, links: seq<int>): set<int> {
    set c | 2 <= c <= g.clusters + 1 && c < |links| && links[c] != 0
  }

  ghost function Elems(ch: seq<int>): set<int> {
    set c | c in ch
  }

  ghost function Members(files: seq<seq<int>>): set<int> {
    if files == [] then {} else Members(files[..|files| - 1]) + Elems(files[|files| - 1])
  }

  lemma {:induction false} MembersAreInSome(files: seq<seq<int>>, c: int)
    ensures c in Members(files) <==> InSome(files, c)
  {
    if files != [] {
      var n := |files| - 1;
      MembersAreInSome(files[..n], c);
      if InSome(files[..n], c) {
        var i :| 0 <= i < n && c in files[..n][i];
        assert c in files[i];
      }
      if InSome(files, c) && c !in files[n] {
        var i :| 0 <= i < |files| && c in files[i];
        assert c in files[..n][i];
      }
    }
  }

  lemma {:induction false} DistinctSize(ch: seq<int>)
    requires Distinct(ch)
    ensures |Elems(ch)| == |ch|
  {
    if ch != [] {
      var n := |ch| - 1;
      DistinctSize(ch[..n]);
      assert Elems(ch) == Elems(ch[..n]) + {ch[n]};
    }
  }

  /** Disjoint chains have together as many clusters as they are long. */
  lemma {:induction false} MembersCounted(g: Layout, links: seq<int>, files: seq<seq<int>>)
    requires SmallVolume(g) && Family(g, links, files)
    ensures |Members(files)| == Total(files) && Members(files) <= InUse(g, links)
  {
    if files != [] {
      var n := |files| - 1;
      var rest, own := files[..n], Elems(files[n]);
      assert Family(g, links, rest) by {
        forall i | 0 <= i < n
          ensures IsChain(g, links, rest[i])
        {
          assert rest[i] == files[i];
        }
        forall i, j | 0 <= i < n && 0 <= j < n && i != j
          ensures Apart(rest[i], rest[j])
        {
          assert rest[i] == files[i] && rest[j] == files[j];
        }
      }
      MembersCounted(g, links, rest);
      ChainIsAcyclic(g, links, files[n]);
      ChainIsInUse(g, links, files[n]);
      DistinctSize(files[n]);
      forall c | c in own
        ensures c !in Members(rest)
      {
        MembersAreInSome(rest, c);
        forall i | 0 <= i < |rest|
          ensures c !in rest[i]
        {
          assert rest[i] == files[i] && Apart(files[n], files[i]);
        }
      }
      assert Members(rest) !! own;
    }
  }

  lemma FreeAndUsed(g: Layout, links: seq<int>)
    requires g.clusters + 2 <= |links|
    ensures FreeCount(g, links) + |InUse(g, links)| == g.clusters
  {
    RangeIsFull(2, g.clusters);
    assert FreeSet(g, links) + InUse(g, links) == Range(2, g.clusters) && FreeSet(g, links) !! InUse(g, links);
  }

  lemma NoneLostMeans(g: Layout, links: seq<int>, files: seq<seq<int>>)
    ensures NoneLost(g, links, files) <==> InUse(g, links) <= Members(files)
  {
    forall c
      ensures c in Members(files) <==> InSome(files, c)
    {
      MembersAreInSome(files, c);
    }
  }

  /** No cluster is lost just when the free clusters and those of the files add up to all there are. */
  lemma NothingLostIsConserved(g: Layout, t: Table)
    requires SmallVolume(g) && Family(g, t.links, t.files) && g.clusters + 2 <= |t.links|
    ensures NoneLost(g, t.links, t.files) <==> FreeCount(g, t.links) + Total(t.files) == g.clusters
  {
    MembersCounted(g, t.links, t.files);
    FreeAndUsed(g, t.links);
    NoneLostMeans(g, t.links, t.files);
    SameSize(Members(t.files), InUse(g, t.links));
  }

  lemma SameSize(a: set<int>, b: set<int>)
    requires a <= b
    ensures b <= a <==> |a| == |b|
  {
    if |a| == |b| {
      SubsetOfSameSize(a, b);
    }
    if b <= a {
      assert a == b;
    }
  }

  ghost function Range(lo: int, n: nat): set<int> {
    if n == 0 then {} else Range(lo, n - 1) + {lo + n - 1}
  }

  lemma {:induction false} RangeIsFull(lo: int, n: nat)
    ensures |Range(lo, n)| == n
    ensures forall c :: c in Range(lo, n) <==> lo <= c < lo + n
  {
    if n > 0 {
      RangeIsFull(lo, n - 1);
    }
  }

  lemma SubsetOfSameSize(a: set<int>, b: set<int>)
    requires a <= b && |a| == |b|
    ensures a == b
  {
    assert |b - a| == |b| - |a|;
    assert b == a + (b - a);
  }

  /** Over every run in which no empty file with more than one cluster is closed, no cluster is ever lost; and only then. */
  lemma RunLosesNothing(g: Layout, t: Table, ops: seq<Op>)
    requires SmallVolume(g) && Family(g, t.links, t.files) && AllEnabled(g, t, ops) && g.clusters + 2 <= |t.links|
    requires NoneLost(g, t.links, t.files)
    ensures NoneLost(g, AfterAll(g, t, ops).links, AfterAll(g, t, ops).files) <==> AllLeaked(g, t, ops) == 0
  {
    RunKeeps(g, t, ops);
    SameTableSize(g, t, ops);
    NothingLostIsConserved(g, t);
    NothingLostIsConserved(g, AfterAll(g, t, ops));
  }

  lemma {:induction false} SameTableSize(g: Layout, t: Table, ops: seq<Op>)
    requires AllEnabled(g, t, ops)
    ensures |AfterAll(g, t, ops).links| == |t.links|
    decreases |ops|
  {
    if ops != [] {
      SameTableSize(g, After(t, ops[0]), ops[1..]);
    }
  }
}
