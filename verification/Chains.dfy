/** Cluster chains as values: what a table of links says about files, independent of the driver. */
module Chains {
  import opened Geometry
  import opened FatTable

  /** `ch` runs through the table from its first cluster to an end-of-chain mark, inside the volume. */
  ghost predicate IsChain(g: Layout, links: seq<int>, ch: seq<int>) {
    forall i | 0 <= i < |ch| :: Linked(g, links, ch, i)
  }

  ghost predicate Linked(g: Layout, links: seq<int>, ch: seq<int>, i: int)
    requires 0 <= i < |ch|
  {
    && g.InRange(ch[i]) && ch[i] < |links|
    && (if i == |ch| - 1 then links[ch[i]] >= EOF_MARK else links[ch[i]] == ch[i + 1] && g.InRange(ch[i + 1]))
  }

  ghost predicate Distinct(ch: seq<int>) {
    forall i, j | 0 <= i < j < |ch| :: ch[i] != ch[j]
  }

  ghost predicate Apart(a: seq<int>, b: seq<int>) {
    forall c | c in a :: c !in b
  }

  ghost predicate SmallVolume(g: Layout) {
    g.clusters + 1 < BAD_MARK
  }

  /** A terminated chain cannot visit a cluster twice, whatever the rest of the table holds. */
  lemma ChainIsAcyclic(g: Layout, links: seq<int>, ch: seq<int>)
    requires SmallVolume(g) && IsChain(g, links, ch)
    ensures Distinct(ch)
  {
    forall i, j | 0 <= i < j < |ch|
      ensures ch[i] != ch[j]
    {
      NoRepeat(g, links, ch, i, j);
    }
  }

  lemma NoRepeat(g: Layout, links: seq<int>, ch: seq<int>, i: int, j: int)
    requires SmallVolume(g) && IsChain(g, links, ch) && 0 <= i < j < |ch|
    ensures ch[i] != ch[j]
    decreases |ch| - j
  {
    if ch[i] == ch[j] {
      assert Linked(g, links, ch, i) && Linked(g, links, ch, j);
      assert links[ch[i]] == ch[i + 1] && g.InRange(ch[i + 1]);
      assert j < |ch| - 1;
      NoRepeat(g, links, ch, i + 1, j + 1);
    }
  }

  /** The table decides a chain from its first cluster on. */
  lemma {:induction false} ChainIsUnique(g: Layout, links: seq<int>, a: seq<int>, b: seq<int>)
    requires SmallVolume(g) && IsChain(g, links, a) && IsChain(g, links, b)
    requires |a| > 0 && |b| > 0 && a[0] == b[0]
    ensures a == b
  {
    assert Linked(g, links, a, 0) && Linked(g, links, b, 0);
    if |a| > 1 {
      SuffixIsChain(g, links, a, 1);
      SuffixIsChain(g, links, b, 1);
      ChainIsUnique(g, links, a[1..], b[1..]);
      assert a == [a[0]] + a[1..] && b == [b[0]] + b[1..];
    }
  }

  lemma SuffixIsChain(g: Layout, links: seq<int>, ch: seq<int>, k: int)
    requires IsChain(g, links, ch) && 0 <= k <= |ch|
    ensures IsChain(g, links, ch[k..])
  {
    forall i | 0 <= i < |ch[k..]|
      ensures Linked(g, links, ch[k..], i)
    {
      assert Linked(g, links, ch, i + k);
    }
  }

  /** A chain survives every change of the table that leaves its own entries alone. */
  lemma ChainFrame(g: Layout, links: seq<int>, links': seq<int>, ch: seq<int>)
    requires IsChain(g, links, ch) && |links'| == |links|
    requires forall c | c in ch :: 0 <= c < |links| && links'[c] == links[c]
    ensures IsChain(g, links', ch)
  {
    forall i | 0 <= i < |ch|
      ensures Linked(g, links', ch, i)
    {
      assert Linked(g, links, ch, i) && ch[i] in ch;
    }
  }

  /** The table after entry `c` has been set to `v`. */
  function Put(links: seq<int>, c: int, v: int): (r: seq<int>)
    ensures |r| == |links|
  {
    if 0 <= c < |links| then links[c := v] else links
  }

  /** The table after cluster `c` has been linked behind `ch`. */
  function Appended(links: seq<int>, ch: seq<int>, c: int): (r: seq<int>)
    ensures |r| == |links|
  {
    Put(if ch == [] then links else Put(links, ch[|ch| - 1], c), c, EOF_MARK)
  }

  /** Linking a free cluster behind a chain makes it one longer; no other chain is touched. */
  lemma AppendMakesChain(g: Layout, links: seq<int>, ch: seq<int>, c: int)
    requires SmallVolume(g) && IsChain(g, links, ch) && c in FreeSet(g, links)
    ensures IsChain(g, Appended(links, ch, c), ch + [c])
    ensures c !in ch
    ensures forall e | 0 <= e < |links| && links[e] != 0 && e !in ch :: Appended(links, ch, c)[e] == links[e]
  {
    ChainIsAcyclic(g, links, ch);
    forall i | 0 <= i < |ch|
      ensures ch[i] != c
    {
      assert Linked(g, links, ch, i);
    }
    assert ch != [] ==> Linked(g, links, ch, |ch| - 1);
    forall i | 0 <= i < |ch + [c]|
      ensures Linked(g, Appended(links, ch, c), ch + [c], i)
    {
      assert i < |ch| ==> Linked(g, links, ch, i);
    }
  }

  /** The table after the entries of `w` have been freed. */
  function Zeroed(links: seq<int>, w: seq<int>): (r: seq<int>)
    ensures |r| == |links|
  {
    seq(|links|, (c: int) requires 0 <= c < |links| => if c in w then 0 else links[c])
  }

  /** The table after a chain has been cut behind its first `k` clusters. */
  function Cut(links: seq<int>, ch: seq<int>, k: int): (r: seq<int>)
    requires 0 <= k <= |ch|
    ensures |r| == |links|
  {
    var freed := Zeroed(links, ch[k..]);
    if k == 0 then freed else Put(freed, ch[k - 1], EOF_MARK)
  }

  lemma CutMakesChain(g: Layout, links: seq<int>, ch: seq<int>, k: int)
    requires SmallVolume(g) && IsChain(g, links, ch) && 0 < k <= |ch|
    ensures IsChain(g, Cut(links, ch, k), ch[..k])
    ensures forall e | 0 <= e < |links| && e !in ch :: Cut(links, ch, k)[e] == links[e]
    ensures forall e | e in ch[k..] :: 0 <= e < |links| && Cut(links, ch, k)[e] == 0
  {
    ChainIsAcyclic(g, links, ch);
    var links' := Cut(links, ch, k);
    forall i | 0 <= i < k
      ensures Linked(g, links', ch[..k], i) && ch[i] !in ch[k..]
    {
      assert Linked(g, links, ch, i);
    }
    forall e | e in ch[k..]
      ensures 0 <= e < |links| && links'[e] == 0
    {
      var i :| 0 <= i < |ch[k..]| && ch[k..][i] == e;
      assert Linked(g, links, ch, i + k);
    }
  }

  /** A family of files: every one a chain, no cluster in two of them. */
  ghost predicate Family(g: Layout, links: seq<int>, files: seq<seq<int>>) {
    && (forall i | 0 <= i < |files| :: IsChain(g, links, files[i]))
    && (forall i, j | 0 <= i < |files| && 0 <= j < |files| && i != j :: Apart(files[i], files[j]))
  }

  /** No cluster is lost: what is not free belongs to some file. */
  ghost predicate NoneLost(g: Layout, links: seq<int>, files: seq<seq<int>>) {
    forall c | 0 <= c < |links| && g.InRange(c) && links[c] != 0 :: InSome(files, c)
  }

  ghost predicate InSome(files: seq<seq<int>>, c: int) {
    exists i | 0 <= i < |files| :: c in files[i]
  }

  lemma ChainIsInUse(g: Layout, links: seq<int>, ch: seq<int>)
    requires IsChain(g, links, ch)
    ensures forall c | c in ch :: g.InRange(c) && c < |links| && links[c] != 0
  {
    forall c | c in ch
      ensures g.InRange(c) && c < |links| && links[c] != 0
    {
      var i :| 0 <= i < |ch| && ch[i] == c;
      assert Linked(g, links, ch, i);
    }
  }

  /** What one file operation may do: rewrite its own entries and claim free ones. */
  ghost predicate OwnChange(links: seq<int>, links': seq<int>, ch: seq<int>, ch': seq<int>) {
    && |links'| == |links|
    && (forall e | 0 <= e < |links| && links[e] != 0 && e !in ch :: links'[e] == links[e])
    && (forall e | e in ch' :: e in ch || (0 <= e < |links| && links[e] == 0))
  }

  /** An operation that keeps to its own chain keeps the whole family. */
  lemma FamilyKept(g: Layout, links: seq<int>, links': seq<int>, files: seq<seq<int>>, i: int, ch': seq<int>)
    requires Family(g, links, files) && 0 <= i < |files|
    requires OwnChange(links, links', files[i], ch') && IsChain(g, links', ch')
    ensures Family(g, links', files[i := ch'])
  {
    forall j | 0 <= j < |files| && j != i
      ensures IsChain(g, links', files[j]) && Apart(ch', files[j]) && Apart(files[j], ch')
    {
      ChainIsInUse(g, links, files[j]);
      assert Apart(files[j], files[i]);
      ChainFrame(g, links, links', files[j]);
    }
  }
}
