/** The FAT behind its four-slot write-back cache. */
module FatTable {
  import opened Folding
  import opened Sectors
  import opened Geometry

  const CACHE_SIZE := 4
  const LOW := 0x1000_0000           // entries are the low 28 bits of their word

  const FSINFO_FREECOUNT := 122      // word indices in the FSInfo sector
  const FSINFO_NEXTFREE := 123
  const NO_HINT := 0xffff_ffff

  datatype Slot = Slot(secnum: int, valid: bool, dirty: bool, data: Sector)

  /** The low 28 bits of a word, from its bytes. */
  lemma LowBytes(s: Sector, k: nat)
    requires k < 128
    ensures var b0: int, b1: int, b2: int, b3: int := s[4 * k], s[4 * k + 1], s[4 * k + 2], s[4 * k + 3];
      && WordAt(s, k) % LOW == b0 + 256 * b1 + 65536 * b2 + 16777216 * (b3 % 16)
      && WordAt(s, k) / LOW == b3 / 16
  {
    var b0: int, b1: int, b2: int, b3: int := s[4 * k], s[4 * k + 1], s[4 * k + 2], s[4 * k + 3];
    var low := b0 + 256 * b1 + 65536 * b2 + 16777216 * (b3 % 16);
    assert b3 == 16 * (b3 / 16) + b3 % 16;
    assert WordAt(s, k) == (b3 / 16) * LOW + low;
    Unpack(WordAt(s, k), b3 / 16, low);
  }

  /** The four bytes at `o` have been given the low 28 bits of `val`, lowest first; the top four bits of the last, and all
      other bytes, are as before. */
  ghost predicate LinkBytes(s0: Sector, s1: Sector, o: nat, val: Word)
    requires o + 4 <= SECTOR_SIZE
  {
    var b0: int, b1: int, b2: int, b3: int := s1[o], s1[o + 1], s1[o + 2], s1[o + 3];
    && b0 + 256 * b1 + 65536 * b2 + 16777216 * (b3 % 16) == val % 0x1000_0000
    && s1[o + 3] / 16 == s0[o + 3] / 16
    && forall y | 0 <= y < 512 && !(o <= y < o + 4) :: s1[y] == s0[y]
  }

  lemma MergedBytes(s: Sector, k: nat, val: Word)
    requires k < 128
    ensures LinkBytes(s, PutWord(s, k, Merge(WordAt(s, k), val)), 4 * k, val)
  {
    var w := Merge(WordAt(s, k), val);
    var now := PutWord(s, k, w);
    PutWordSelects(s, k, w);
    PutWordBytes(s, k, w);
    LowBytes(now, k);
    LowBytes(s, k);
  }

  /** The contents of FAT sector `n` as the driver sees them: the cached copy if there is one. */
  ghost function FatSector(g: Layout, disk: seq<Sector>, slots: seq<Slot>, n: int): Sector
    requires |slots| == CACHE_SIZE && 0 <= n < g.fatSize && g.FatEnd() <= |disk|
  {
    var s := slots[(n + g.reserved) % CACHE_SIZE];
    if s.valid && s.secnum == n + g.reserved then s.data else disk[g.FatAt(n)]
  }

  /** The logical FAT, sector by sector. */
  ghost function View(g: Layout, disk: seq<Sector>, slots: seq<Slot>): (v: seq<Sector>)
    requires |slots| == CACHE_SIZE && g.FatEnd() <= |disk|
    ensures |v| == g.fatSize
  {
    seq(g.fatSize, (n: int) requires 0 <= n < g.fatSize => FatSector(g, disk, slots, n))
  }

  /** The 32-bit word of entry `c`. */
  function EntryIn(view: seq<Sector>, c: int): Word
    requires 0 <= c < |view| * WORDS_PER_SECTOR
  {
    WordAt(view[c / WORDS_PER_SECTOR], c % WORDS_PER_SECTOR)
  }

  /** The FAT `view` holds the cluster links `fat` in the low 28 bits of its entries, below the reserved bits `tops`. */
  ghost predicate Reflects(view: seq<Sector>, fat: seq<int>, tops: seq<int>) {
    && |fat| == |tops| == |view| * WORDS_PER_SECTOR
    && forall c {:trigger EntryIn(view, c)} | 0 <= c < |fat| ::
         0 <= fat[c] < LOW && 0 <= tops[c] && EntryIn(view, c) == tops[c] * LOW + fat[c]
  }

  /** The links of a FAT, read off its sectors. */
  ghost function LinksOf(view: seq<Sector>): seq<int> {
    seq(|view| * WORDS_PER_SECTOR, (c: int) requires 0 <= c < |view| * WORDS_PER_SECTOR => EntryIn(view, c) % LOW)
  }

  ghost function TopsOf(view: seq<Sector>): seq<int> {
    seq(|view| * WORDS_PER_SECTOR, (c: int) requires 0 <= c < |view| * WORDS_PER_SECTOR => EntryIn(view, c) / LOW)
  }

  lemma SectorsReflect(view: seq<Sector>)
    ensures Reflects(view, LinksOf(view), TopsOf(view))
  {
  }

  lemma Unpack(w: Word, top: int, low: int)
    requires w == top * LOW + low && 0 <= low < LOW
    ensures w % LOW == low && w / LOW == top
    ensures forall val: Word :: Merge(w, val) == top * LOW + Low(val)
  {
  }

  /** A slot only holds FAT sectors that map to it, and a clean slot equals the disk. */
  ghost predicate SlotOk(g: Layout, disk: seq<Sector>, s: Slot, i: int)
    requires g.FatEnd() <= |disk|
  {
    && (s.valid ==>
          && g.reserved <= s.secnum < g.reserved + g.fatSize
          && s.secnum % CACHE_SIZE == i
          && (!s.dirty ==> s.data == disk[g.start + s.secnum]))
    && (!s.valid ==> !s.dirty)
  }

  ghost predicate CacheOk(g: Layout, disk: seq<Sector>, slots: seq<Slot>)
    requires g.FatEnd() <= |disk|
  {
    && |slots| == CACHE_SIZE
    && forall i | 0 <= i < CACHE_SIZE :: SlotOk(g, disk, slots[i], i)
  }

  /** The second FAT copy repeats the first. */
  ghost predicate Mirrored(g: Layout, disk: seq<Sector>)
    requires g.Laid(|disk|) && g.numFats > 1
  {
    forall n | 0 <= n < g.fatSize :: disk[g.SecondAt(n)] == disk[g.FatAt(n)]
  }

  /** `d1` differs from `d0` at most inside the FATs, and a mirrored second FAT stays mirrored. */
  ghost predicate FatsOnly(g: Layout, d0: seq<Sector>, d1: seq<Sector>)
    requires g.Laid(|d0|)
  {
    && |d0| == |d1|
    && (forall s | 0 <= s < |d0| && !(g.FatAt(0) <= s < g.start + g.firstData) :: d1[s] == d0[s])
    && (g.numFats > 1 && Mirrored(g, d0) ==> Mirrored(g, d1))
  }

  /** Sectors outside the FATs and the FSInfo sector are as before; files in particular. */
  ghost predicate OutsideKept(g: Layout, d0: seq<Sector>, d1: seq<Sector>) {
    && |d1| == |d0|
    && forall s | 0 <= s < |d0| && !(g.FatAt(0) <= s < g.start + g.firstData) && s != g.start + g.fsinfo :: d1[s] == d0[s]
  }

  /** The disk after a slot has been written to the first FAT, and to the second if there is one. */
  function Flushed(g: Layout, disk: seq<Sector>, s: Slot): seq<Sector>
    requires 0 <= g.start + s.secnum < |disk|
    requires g.numFats > 1 ==> g.start + s.secnum + g.fatSize < |disk|
  {
    var d := disk[g.start + s.secnum := s.data];
    if g.numFats > 1 then d[g.start + s.secnum + g.fatSize := s.data] else d
  }

  /** Writing back a slot changes neither the logical FAT nor anything outside the FATs. */
  lemma FlushKeepsView(g: Layout, disk: seq<Sector>, slots: seq<Slot>, i: int)
    requires g.Laid(|disk|)
    requires CacheOk(g, disk, slots) && 0 <= i < CACHE_SIZE && slots[i].valid
    ensures 0 <= g.start + slots[i].secnum < g.FatEnd()
    ensures var d, s := Flushed(g, disk, slots[i]), slots[i := slots[i].(dirty := false)];
      CacheOk(g, d, s) && View(g, d, s) == View(g, disk, slots) && FatsOnly(g, disk, d)
  {
    assert SlotOk(g, disk, slots[i], i);
    var d, s := Flushed(g, disk, slots[i]), slots[i := slots[i].(dirty := false)];
    forall k | 0 <= k < CACHE_SIZE
      ensures SlotOk(g, d, s[k], k)
    {
      assert SlotOk(g, disk, slots[k], k) && SlotOk(g, disk, slots[i], i);
    }
    forall n | 0 <= n < g.fatSize
      ensures FatSector(g, d, s, n) == FatSector(g, disk, slots, n)
    {
      assert SlotOk(g, disk, slots[i], i);
    }
  }

  /** Disk and cache after FAT sector `n` has been looked up: the old tenant of its slot is written back if dirty. */
  ghost function Loaded(g: Layout, disk: seq<Sector>, slots: seq<Slot>, n: int): (r: (seq<Sector>, seq<Slot>))
    requires g.Laid(|disk|) && CacheOk(g, disk, slots) && 0 <= n < g.fatSize
  {
    var i := (n + g.reserved) % CACHE_SIZE;
    assert SlotOk(g, disk, slots[i], i);
    if slots[i].valid && slots[i].secnum == n + g.reserved then
      (disk, slots)
    else
      var d := if slots[i].dirty then Flushed(g, disk, slots[i]) else disk;
      (d, slots[i := Slot(n + g.reserved, true, false, d[g.FatAt(n)])])
  }

  /** fat_init: no slot is in use. */
  function EmptyCache(): (slots: seq<Slot>)
    ensures |slots| == CACHE_SIZE
    ensures forall i | 0 <= i < CACHE_SIZE :: !slots[i].valid && !slots[i].dirty
  {
    seq(CACHE_SIZE, (i: int) => Slot(-1, false, false, seq(SECTOR_SIZE, (k: int) => 0)))
  }

  /** With nothing cached, the logical FAT is the first FAT on disk. */
  lemma EmptyCacheIsDisk(g: Layout, disk: seq<Sector>, slots: seq<Slot>)
    requires g.FatEnd() <= |disk| && |slots| == CACHE_SIZE
    requires forall i | 0 <= i < CACHE_SIZE :: !slots[i].valid && !slots[i].dirty
    ensures CacheOk(g, disk, slots)
    ensures View(g, disk, slots) == disk[g.FatAt(0)..g.FatEnd()]
  {
    forall n | 0 <= n < g.fatSize
      ensures FatSector(g, disk, slots, n) == disk[g.FatAt(n)]
    {
    }
  }

  /** Looking up a sector never changes the logical FAT. */
  lemma LoadKeepsView(g: Layout, disk: seq<Sector>, slots: seq<Slot>, n: int)
    requires g.Laid(|disk|) && CacheOk(g, disk, slots) && 0 <= n < g.fatSize
    ensures var (d, s) := Loaded(g, disk, slots, n);
      && FatsOnly(g, disk, d) && CacheOk(g, d, s) && View(g, d, s) == View(g, disk, slots)
      && s[(n + g.reserved) % CACHE_SIZE].data == View(g, disk, slots)[n]
  {
    var i := (n + g.reserved) % CACHE_SIZE;
    assert SlotOk(g, disk, slots[i], i);
    if !(slots[i].valid && slots[i].secnum == n + g.reserved) {
      if slots[i].dirty {
        FlushKeepsView(g, disk, slots, i);
        var d, s := Flushed(g, disk, slots[i]), slots[i := slots[i].(dirty := false)];
        ReplaceKeepsView(g, d, s, n);
        SlotTwice(slots, i, slots[i].(dirty := false), Slot(n + g.reserved, true, false, d[g.FatAt(n)]));
      } else {
        ReplaceKeepsView(g, disk, slots, n);
      }
    }
  }

  lemma SlotTwice(slots: seq<Slot>, i: nat, a: Slot, b: Slot)
    requires i < |slots|
    ensures slots[i := a][i := b] == slots[i := b]
  {
  }

  lemma ReplaceKeepsView(g: Layout, disk: seq<Sector>, slots: seq<Slot>, n: int)
    requires g.FatEnd() <= |disk|
    requires CacheOk(g, disk, slots) && 0 <= n < g.fatSize && !slots[(n + g.reserved) % CACHE_SIZE].dirty
    ensures var s := slots[(n + g.reserved) % CACHE_SIZE := Slot(n + g.reserved, true, false, disk[g.FatAt(n)])];
      CacheOk(g, disk, s) && View(g, disk, s) == View(g, disk, slots)
  {
    var i := (n + g.reserved) % CACHE_SIZE;
    var s := slots[i := Slot(n + g.reserved, true, false, disk[g.FatAt(n)])];
    assert SlotOk(g, disk, slots[i], i);
    forall k | 0 <= k < CACHE_SIZE
      ensures SlotOk(g, disk, s[k], k)
    {
      assert SlotOk(g, disk, slots[k], k);
    }
    forall m | 0 <= m < g.fatSize
      ensures FatSector(g, disk, s, m) == FatSector(g, disk, slots, m)
    {
    }
  }

  lemma DirtyKeepsView(g: Layout, disk: seq<Sector>, slots: seq<Slot>, i: int)
    requires g.FatEnd() <= |disk| && CacheOk(g, disk, slots) && 0 <= i < CACHE_SIZE && slots[i].valid
    ensures var s := slots[i := slots[i].(dirty := true)];
      CacheOk(g, disk, s) && View(g, disk, s) == View(g, disk, slots)
  {
    var s := slots[i := slots[i].(dirty := true)];
    forall k | 0 <= k < CACHE_SIZE
      ensures SlotOk(g, disk, s[k], k)
    {
      assert SlotOk(g, disk, slots[k], k);
    }
    assert View(g, disk, s) == View(g, disk, slots);
  }

  /** Overwriting a word of a cached sector overwrites that word of the logical FAT, and no other. */
  lemma PutWordPutsEntry(g: Layout, disk: seq<Sector>, slots: seq<Slot>, n: int, k: int, w: Word)
    requires g.FatEnd() <= |disk| && CacheOk(g, disk, slots) && 0 <= n < g.fatSize && 0 <= k < WORDS_PER_SECTOR
    requires var i := (n + g.reserved) % CACHE_SIZE;
      slots[i].valid && slots[i].dirty && slots[i].secnum == n + g.reserved
    ensures var i := (n + g.reserved) % CACHE_SIZE;
      var s := slots[i := slots[i].(data := PutWord(slots[i].data, k, w))];
      var v := View(g, disk, slots);
      CacheOk(g, disk, s) && v[n] == slots[i].data && View(g, disk, s) == v[n := PutWord(v[n], k, w)]
  {
    var i := (n + g.reserved) % CACHE_SIZE;
    var s := slots[i := slots[i].(data := PutWord(slots[i].data, k, w))];
    forall j | 0 <= j < CACHE_SIZE
      ensures SlotOk(g, disk, s[j], j)
    {
      assert SlotOk(g, disk, slots[j], j);
    }
  }

  /** Replacing the low bits of one entry changes one link and no reserved bits. */
  lemma PutLink(v: seq<Sector>, fat: seq<int>, tops: seq<int>, n: int, k: int, val: Word)
    requires Reflects(v, fat, tops) && 0 <= n < |v| && 0 <= k < WORDS_PER_SECTOR
    ensures var c := n * WORDS_PER_SECTOR + k;
      && 0 <= c < |fat| && WordAt(v[n], k) % LOW == fat[c]
      && Reflects(v[n := PutWord(v[n], k, Merge(WordAt(v[n], k), val))], fat[c := Low(val)], tops)
  {
    var c := n * WORDS_PER_SECTOR + k;
    EntryInSector(v, n, k);
    assert 0 <= fat[c] < LOW && EntryIn(v, c) == tops[c] * LOW + fat[c];
    Unpack(EntryIn(v, c), tops[c], fat[c]);
    PutPacked(v, fat, tops, n, k, Merge(WordAt(v[n], k), val), Low(val));
  }

  /** Entry `c` of the FAT, and nothing else, has been given the low 28 bits of `val`. */
  ghost predicate EntryWritten(v0: seq<Sector>, v1: seq<Sector>, c: int, val: Word) {
    && |v0| == |v1| && 0 <= c < |v0| * 128
    && LinkBytes(v0[c / 128], v1[c / 128], 4 * (c % 128), val)
    && forall n | 0 <= n < |v0| && n != c / 128 :: v1[n] == v0[n]
  }

  /** One link of the cached FAT has been changed, in its four bytes. */
  lemma LinkWritten(g: Layout, disk: seq<Sector>, slots: seq<Slot>, c: int, fat: seq<int>, tops: seq<int>, val: Word)
    requires g.FatEnd() <= |disk| && CacheOk(g, disk, slots) && 0 <= c < g.Entries()
    requires Reflects(View(g, disk, slots), fat, tops)
    requires var i := (c / WORDS_PER_SECTOR + g.reserved) % CACHE_SIZE;
      slots[i].valid && slots[i].dirty && slots[i].secnum == c / WORDS_PER_SECTOR + g.reserved
    ensures var i, k := (c / WORDS_PER_SECTOR + g.reserved) % CACHE_SIZE, c % WORDS_PER_SECTOR;
      var now := slots[i := slots[i].(data := PutWord(slots[i].data, k, Merge(WordAt(slots[i].data, k), val)))];
      && CacheOk(g, disk, now) && c < |fat| && WordAt(slots[i].data, k) % LOW == fat[c]
      && Reflects(View(g, disk, now), fat[c := Low(val)], tops)
      && EntryWritten(View(g, disk, slots), View(g, disk, now), c, val)
  {
    var n, k := c / WORDS_PER_SECTOR, c % WORDS_PER_SECTOR;
    var i := (n + g.reserved) % CACHE_SIZE;
    PutWordPutsEntry(g, disk, slots, n, k, Merge(WordAt(slots[i].data, k), val));
    PutLink(View(g, disk, slots), fat, tops, n, k, val);
    MergedBytes(slots[i].data, k, val);
  }

  lemma PutPacked(v: seq<Sector>, fat: seq<int>, tops: seq<int>, n: int, k: int, w: Word, low: int)
    requires Reflects(v, fat, tops) && 0 <= n < |v| && 0 <= k < WORDS_PER_SECTOR
    requires 0 <= low < LOW && w == tops[n * WORDS_PER_SECTOR + k] * LOW + low
    ensures Reflects(v[n := PutWord(v[n], k, w)], fat[n * WORDS_PER_SECTOR + k := low], tops)
  {
    var c := n * WORDS_PER_SECTOR + k;
    var u := v[n := PutWord(v[n], k, w)];
    PutWordSelects(v[n], k, w);
    assert EntryIn(v, c) == WordAt(v[n], k);
    var fat' := fat[c := low];
    forall e | 0 <= e < |fat|
      ensures 0 <= fat'[e] < LOW && 0 <= tops[e] && EntryIn(u, e) == tops[e] * LOW + fat'[e]
    {
      assert e == WORDS_PER_SECTOR * (e / WORDS_PER_SECTOR) + e % WORDS_PER_SECTOR;
      if e == c {
        assert EntryIn(u, e) == w;
      } else {
        assert EntryIn(u, e) == EntryIn(v, e);
      }
    }
  }

  /** The part of a value that an entry can hold. */
  function Low(val: Word): (r: int)
    ensures r == val % LOW && 0 <= r < LOW
  {
    if val < LOW then val else val % LOW
  }

  /** An entry whose low 28 bits have been replaced; its top four bits are reserved and survive. */
  function Merge(prior: Word, val: Word): (w: Word)
    ensures w % LOW == val % LOW && w / LOW == prior / LOW
  {
    prior - prior % LOW + val % LOW
  }

  /** The clusters an allocation may take. */
  ghost function FreeSet(g: Layout, links: seq<int>): set<int> {
    set c | 0 <= c < |links| && 2 <= c <= g.clusters + 1 && links[c] == 0
  }

  ghost function FreeCount(g: Layout, links: seq<int>): nat {
    |FreeSet(g, links)|
  }

  /** How one entry's update moves the number of free clusters. */
  lemma FreeSetOfUpdate(g: Layout, links: seq<int>, c: int, v: int)
    requires 0 <= c < |links| && g.InRange(c)
    ensures var free, free' := FreeSet(g, links), FreeSet(g, links[c := v]);
      |free'| == |free| - (if links[c] == 0 then 1 else 0) + (if v == 0 then 1 else 0)
  {
    var free, free' := FreeSet(g, links), FreeSet(g, links[c := v]);
    assert free - {c} == free' - {c};
    assert |free - {c}| == |free| - (if links[c] == 0 then 1 else 0) by {
      if links[c] != 0 { assert free - {c} == free; }
    }
    assert |free' - {c}| == |free'| - (if v == 0 then 1 else 0) by {
      if v != 0 { assert free' - {c} == free'; }
    }
  }

  /** The free-cluster counter after an entry that held `prior` has been set to `val`. */
  function NextCount(count: Word, prior: int, val: Word): Word {
    if val != 0 then
      if prior == 0 && count > 0 then count - 1 else count
    else
      if prior != 0 then (count + 1) % 0x1_0000_0000 else count
  }

  /** An exact counter stays exact: its `count > 0` guard never hides a decrement, and it never wraps. */
  lemma CountFollows(g: Layout, size: nat, count: Word, links: seq<int>, c: int, val: Word)
    requires g.Laid(size) && 0 <= c < |links| && g.InRange(c) && val < LOW
    requires count == FreeCount(g, links)
    ensures NextCount(count, links[c], val) == FreeCount(g, links[c := Low(val)])
  {
    FreeSetOfUpdate(g, links, c, val);
    FreeSetBounded(g, links[c := val]);
    FreeSetBounded(g, links);
    if links[c] == 0 {
      assert c in FreeSet(g, links);
    }
  }

  lemma FreeSetBounded(g: Layout, links: seq<int>)
    ensures |FreeSet(g, links)| <= g.clusters
  {
    RangeSize(2, g.clusters, FreeSet(g, links));
  }

  lemma RangeSize(lo: int, n: nat, s: set<int>)
    requires forall c | c in s :: lo <= c < lo + n
    ensures |s| <= n
  {
    if n > 0 {
      RangeSize(lo, n - 1, s - {lo + n - 1});
    } else {
      assert forall c | c in s :: false;
      assert s == {};
    }
  }

  /** Entry `k` of FAT sector `n` is a free cluster of the volume. */
  predicate IsFree(g: Layout, sec: Sector, n: int, k: int) {
    0 <= k < WORDS_PER_SECTOR && g.InRange(n * WORDS_PER_SECTOR + k) && WordAt(sec, k) % LOW == 0
  }

  predicate NoneFree(g: Layout, sec: Sector, n: int) {
    forall k | 0 <= k < WORDS_PER_SECTOR :: !IsFree(g, sec, n, k)
  }

  /** The `m`-th sector of a scan over `n` sectors that begins at `first` and wraps around. */
  function RoundRobin(m: nat, first: nat, n: nat): (r: nat)
    requires 0 < n
    ensures r < n
  {
    (m + first) % n
  }

  lemma QuotientUnique(x: int, n: int, q: int, r: int)
    requires 0 < n && 0 <= r < n && x == q * n + r
    ensures x % n == r
  {
    var q', r' := x / n, x % n;
    assert x == n * q' + r';
    if q > q' {
      ProductMonotone(q' + 1, q, n);
      ProductStep(q', n);
    } else if q < q' {
      ProductMonotone(q + 1, q', n);
      ProductStep(q, n);
    }
  }

  /** The scan reaches every sector. */
  lemma RoundRobinReaches(target: nat, first: nat, n: nat) returns (m: nat)
    requires target < n
    ensures m < n && RoundRobin(m, first, n) == target
  {
    var q, r := first / n, first % n;
    if target >= r {
      m := target - r;
      QuotientUnique(m + first, n, q, target);
    } else {
      m := target - r + n;
      ProductStep(q, n);
      QuotientUnique(m + first, n, q + 1, target);
    }
  }

  /** The `m`-th sector of the scan holds no free cluster. */
  predicate TurnEmpty(g: Layout, view: seq<Sector>, first: nat, m: nat)
    requires 0 < g.fatSize == |view|
  {
    NoneFree(g, view[RoundRobin(m, first, g.fatSize)], RoundRobin(m, first, g.fatSize))
  }

  lemma EntryPosition(nr: nat, k: nat)
    requires k < WORDS_PER_SECTOR
    ensures (nr * WORDS_PER_SECTOR + k) / WORDS_PER_SECTOR == nr && (nr * WORDS_PER_SECTOR + k) % WORDS_PER_SECTOR == k
  {
  }

  /** After `j` entries, counted from `offset` and around, no free cluster has been seen. */
  ghost predicate NoneSeen(g: Layout, sec: Sector, nr: int, offset: int, j: int) {
    forall x {:trigger Unfold(x)} | Unfold(x) ::
      && (forall k | offset <= k < offset + j && k < WORDS_PER_SECTOR :: !IsFree(g, sec, nr, k))
      && (forall k | 0 <= k < offset + j - WORDS_PER_SECTOR :: !IsFree(g, sec, nr, k))
  }

  lemma NoneSeenNext(g: Layout, sec: Sector, nr: int, offset: int, j: int, k: int)
    requires NoneSeen(g, sec, nr, offset, j) && 0 <= offset < WORDS_PER_SECTOR && 0 <= j < WORDS_PER_SECTOR
    requires k == (j + offset) % WORDS_PER_SECTOR && !IsFree(g, sec, nr, k)
    ensures NoneSeen(g, sec, nr, offset, j + 1)
  {
    assert Unfold(0);
    assert k == if j + offset < WORDS_PER_SECTOR then j + offset else j + offset - WORDS_PER_SECTOR;
  }

  lemma NoneSeenAtAll(g: Layout, sec: Sector, nr: int, offset: int)
    requires NoneSeen(g, sec, nr, offset, WORDS_PER_SECTOR) && 0 <= offset < WORDS_PER_SECTOR
    ensures NoneFree(g, sec, nr)
  {
    assert Unfold(0);
  }

  /** Entry `k` is the first free one of the sector from `offset` on and around. */
  ghost predicate FirstIn(g: Layout, sec: Sector, nr: int, offset: int, k: int) {
    && IsFree(g, sec, nr, k)
    && forall i | 0 <= i < 128 && (if k < offset then i < k || offset <= i else offset <= i < k) :: !IsFree(g, sec, nr, i)
  }

  /** Cluster `c` is the first free one of a search from `start` on, which takes the FAT sector by sector and around. */
  ghost predicate FirstFound(g: Layout, view: seq<Sector>, start: nat, c: nat, turn: nat)
    requires 0 < g.fatSize == |view|
  {
    && turn < |view| && c / 128 == (start / 128 + turn) % |view|
    && (forall m | 0 <= m < turn :: TurnEmpty(g, view, start / 128, m))
    && FirstIn(g, view[c / 128], c / 128, if turn == 0 then start % 128 else 0, c % 128)
  }

  lemma FoundHere(g: Layout, view: seq<Sector>, start: nat, c: nat, turn: nat)
    requires 0 < g.fatSize == |view| && turn < |view| && c / 128 == RoundRobin(turn, start / 128, g.fatSize)
    requires forall m | 0 <= m < turn :: TurnEmpty(g, view, start / 128, m)
    requires FirstIn(g, view[c / 128], c / 128, if turn == 0 then start % 128 else 0, c % 128)
    ensures FirstFound(g, view, start, c, turn)
  {
  }

  lemma SeenIsFirst(g: Layout, sec: Sector, nr: int, offset: int, j: int, k: int)
    requires NoneSeen(g, sec, nr, offset, j) && 0 <= offset < WORDS_PER_SECTOR && 0 <= j < WORDS_PER_SECTOR
    requires k == (j + offset) % WORDS_PER_SECTOR && IsFree(g, sec, nr, k)
    ensures FirstIn(g, sec, nr, offset, k)
  {
    assert Unfold(0);
    assert k == if j + offset < WORDS_PER_SECTOR then j + offset else j + offset - WORDS_PER_SECTOR;
  }

  /** A free cluster is what a search from itself on finds. */
  lemma FindsItself(g: Layout, view: seq<Sector>, start: nat, c: nat, turn: nat)
    requires 0 < g.fatSize == |view| && FirstFound(g, view, start, c, turn) && start / 128 < |view|
    requires IsFree(g, view[start / 128], start / 128, start % 128)
    ensures c == start
  {
    var n := start / 128;
    QuotientUnique(n, g.fatSize, 0, n);
    assert turn > 0 ==> TurnEmpty(g, view, n, 0);
    assert turn == 0 && c / 128 == n;
    FirstIsSelf(g, view[n], n, start % 128, c % 128);
  }

  lemma FirstIsSelf(g: Layout, sec: Sector, nr: int, offset: int, k: int)
    requires FirstIn(g, sec, nr, offset, k) && IsFree(g, sec, nr, offset)
    ensures k == offset
  {
  }

  /** The inner loop of the search: one sector, starting at `offset` and wrapping around. */
  method ScanFatSector(g: Layout, sec: Sector, nr: nat, offset: nat) returns (c: int)
    requires offset < WORDS_PER_SECTOR
    ensures c == 0 <==> NoneFree(g, sec, nr)
    ensures c != 0 ==> c / WORDS_PER_SECTOR == nr && FirstIn(g, sec, nr, offset, c % WORDS_PER_SECTOR)
  {
    for j := 0 to WORDS_PER_SECTOR
      invariant NoneSeen(g, sec, nr, offset, j)
    {
      var k := (j + offset) % WORDS_PER_SECTOR;
      if WordAt(sec, k) % LOW == 0 {
        c := nr * WORDS_PER_SECTOR + k;
        if !(c < 2 || c > g.clusters + 1) {
          EntryPosition(nr, k);
          SeenIsFirst(g, sec, nr, offset, j, k);
          return;
        }
      }
      NoneSeenNext(g, sec, nr, offset, j, k);
    }
    NoneSeenAtAll(g, sec, nr, offset);
    return 0;
  }

  lemma LinkInView(view: seq<Sector>, fat: seq<int>, tops: seq<int>, n: nat, k: nat)
    requires Reflects(view, fat, tops) && n < |view| && k < WORDS_PER_SECTOR
    ensures n * WORDS_PER_SECTOR + k < |fat| && fat[n * WORDS_PER_SECTOR + k] == WordAt(view[n], k) % LOW
  {
    EntryInSector(view, n, k);
    var c := n * WORDS_PER_SECTOR + k;
    assert 0 <= fat[c] < LOW && EntryIn(view, c) == tops[c] * LOW + fat[c];
    Unpack(EntryIn(view, c), tops[c], fat[c]);
  }

  lemma EntryInSector(view: seq<Sector>, n: nat, k: nat)
    requires n < |view| && k < WORDS_PER_SECTOR
    ensures 0 <= n * WORDS_PER_SECTOR + k < |view| * WORDS_PER_SECTOR
    ensures EntryIn(view, n * WORDS_PER_SECTOR + k) == WordAt(view[n], k)
  {
    EntryPosition(n, k);
  }

  lemma FreeSetBySector(g: Layout, view: seq<Sector>, fat: seq<int>, tops: seq<int>, c: int)
    requires |view| == g.fatSize && 0 <= c < g.Entries() && Reflects(view, fat, tops)
    ensures c in FreeSet(g, fat) <==> IsFree(g, view[c / WORDS_PER_SECTOR], c / WORDS_PER_SECTOR, c % WORDS_PER_SECTOR)
  {
    LinkInView(view, fat, tops, c / WORDS_PER_SECTOR, c % WORDS_PER_SECTOR);
  }

  /** With no dirty slot, the first FAT on disk is the logical FAT. */
  lemma CleanCacheIsView(g: Layout, disk: seq<Sector>, slots: seq<Slot>)
    requires g.FatEnd() <= |disk| && CacheOk(g, disk, slots)
    requires forall k | 0 <= k < CACHE_SIZE :: !slots[k].dirty
    ensures disk[g.FatAt(0)..g.FatEnd()] == View(g, disk, slots)
  {
    forall n | 0 <= n < g.fatSize
      ensures disk[g.FatAt(n)] == FatSector(g, disk, slots, n)
    {
      assert SlotOk(g, disk, slots[(n + g.reserved) % CACHE_SIZE], (n + g.reserved) % CACHE_SIZE);
    }
  }

  /** Writing a sector outside the first FAT does not change the logical FAT. */
  lemma OutsideFatsKeepsView(g: Layout, disk: seq<Sector>, slots: seq<Slot>, s: int, data: Sector)
    requires g.FatEnd() <= |disk| && CacheOk(g, disk, slots)
    requires 0 <= s < |disk| && !(g.FatAt(0) <= s < g.FatEnd())
    ensures CacheOk(g, disk[s := data], slots) && View(g, disk[s := data], slots) == View(g, disk, slots)
  {
    forall k | 0 <= k < CACHE_SIZE
      ensures SlotOk(g, disk[s := data], slots[k], k)
    {
      assert SlotOk(g, disk, slots[k], k);
    }
  }

  /** The logical FAT only depends on the first FAT on disk and the cache. */
  lemma SameFatsSameView(g: Layout, disk: seq<Sector>, disk': seq<Sector>, slots: seq<Slot>)
    requires g.FatEnd() <= |disk| == |disk'| && CacheOk(g, disk, slots)
    requires forall s | g.FatAt(0) <= s < g.FatEnd() :: disk'[s] == disk[s]
    ensures CacheOk(g, disk', slots) && View(g, disk', slots) == View(g, disk, slots)
  {
    forall k | 0 <= k < CACHE_SIZE
      ensures SlotOk(g, disk', slots[k], k)
    {
      assert SlotOk(g, disk, slots[k], k);
    }
    forall n | 0 <= n < g.fatSize
      ensures FatSector(g, disk', slots, n) == FatSector(g, disk, slots, n)
    {
    }
  }

  /** A scan that found nothing in any sector means the volume is full. */
  lemma NowhereFree(g: Layout, view: seq<Sector>, fat: seq<int>, tops: seq<int>, first: nat)
    requires 0 < g.fatSize && |view| == g.fatSize && Reflects(view, fat, tops)
    requires forall m | 0 <= m < g.fatSize :: TurnEmpty(g, view, first, m)
    ensures FreeSet(g, fat) == {}
  {
    forall c | 0 <= c < g.Entries()
      ensures c !in FreeSet(g, fat)
    {
      var m := RoundRobinReaches(c / WORDS_PER_SECTOR, first, g.fatSize);
      assert TurnEmpty(g, view, first, m);
      FreeSetBySector(g, view, fat, tops, c);
    }
  }

  function Least(a: int, b: int): int {
    if a < b then a else b
  }

  /** The entries below `n` that read as free. */
  ghost function ZeroBelow(links: seq<int>, n: int): set<int> {
    set c | 0 <= c < n && c < |links| && links[c] == 0
  }

  /** The search hint after entries below `n` have been seen: the first zero entry if there was no hint. */
  ghost function FirstZero(links: seq<int>, n: int, hint: Word): Word
    requires n <= |links| && n < 0x8000_0000
  {
    if n <= 0 || hint != NO_HINT then hint
    else if FirstZero(links, n - 1, hint) != NO_HINT then FirstZero(links, n - 1, hint)
    else if links[n - 1] == 0 then n - 1 else NO_HINT
  }

  /** Count and hint once the entries below `n`, or all of them, have been seen. */
  ghost predicate Tallied(g: Layout, links: seq<int>, n: nat, free: nat, hint: Word, hint0: Word)
    requires g.clusters + 2 <= |links| && g.clusters < LOW
  {
    && free == |ZeroBelow(links, Least(n, g.clusters + 2))|
    && hint == FirstZero(links, Least(n, g.clusters + 2), hint0)
  }

  lemma ZeroBelowNext(links: seq<int>, n: nat)
    requires n < |links|
    ensures |ZeroBelow(links, n + 1)| == |ZeroBelow(links, n)| + (if links[n] == 0 then 1 else 0)
  {
    assert ZeroBelow(links, n + 1) == ZeroBelow(links, n) + (if links[n] == 0 then {n} else {});
  }

  lemma ZeroBelowIsFreeSet(g: Layout, links: seq<int>)
    requires 2 <= g.clusters + 2 <= |links|
    ensures |ZeroBelow(links, g.clusters + 2)| == FreeCount(g, links) <==> links[0] != 0 && links[1] != 0
  {
    var zero, free := ZeroBelow(links, g.clusters + 2), FreeSet(g, links);
    var extra := (if links[0] == 0 then {0} else {}) + (if links[1] == 0 then {1} else {});
    assert zero == free + extra && free !! extra;
    assert extra == {} <==> links[0] != 0 && links[1] != 0 by {
      assert links[0] == 0 ==> 0 in extra;
      assert links[1] == 0 ==> 1 in extra;
    }
  }

  /** The inner loop of the recount: one sector of the FAT, up to the last data cluster. */
  method CountFatSector(g: Layout, sec: Sector, i: nat, count: nat, hint: Word, ghost links: seq<int>, ghost hint0: Word)
    returns (free: nat, nextfree: Word)
    requires |links| == g.Entries() && i < g.fatSize && g.clusters + 2 <= g.Entries() && g.clusters < LOW
    requires forall k | 0 <= k < WORDS_PER_SECTOR :: links[i * WORDS_PER_SECTOR + k] == WordAt(sec, k) % LOW
    requires Tallied(g, links, i * WORDS_PER_SECTOR, count, hint, hint0)
    ensures Tallied(g, links, (i + 1) * WORDS_PER_SECTOR, free, nextfree, hint0)
  {
    free, nextfree := count, hint;
    for j := 0 to WORDS_PER_SECTOR
      invariant Tallied(g, links, i * WORDS_PER_SECTOR + j, free, nextfree, hint0)
    {
      var c := i * WORDS_PER_SECTOR + j;
      if c > g.clusters + 1 {
        break;
      }
      ZeroBelowNext(links, c);
      if WordAt(sec, j) % LOW == 0 {
        free := free + 1;
        if nextfree == NO_HINT {
          nextfree := c;
        }
      }
    }
  }

  /** The FSInfo sector has been given counter and hint; its other words are as before. */
  ghost predicate Informed(g: Layout, d0: seq<Sector>, d1: seq<Sector>, freecount: Word, nextfree: Word)
    requires g.Laid(|d0|)
  {
    && |d1| == |d0|
    && d1[g.start + g.fsinfo]
       == PutWord(PutWord(d0[g.start + g.fsinfo], FSINFO_FREECOUNT, freecount), FSINFO_NEXTFREE, nextfree)
  }

  /** The counter stands in bytes 488 to 491 and the hint in bytes 492 to 495 of the FSInfo sector, lowest first. */
  ghost predicate InfoBytes(s0: Sector, s1: Sector, freecount: Word, nextfree: Word) {
    var a0: int, a1: int, a2: int, a3: int := s1[488], s1[489], s1[490], s1[491];
    var b0: int, b1: int, b2: int, b3: int := s1[492], s1[493], s1[494], s1[495];
    && a0 + 256 * a1 + 65536 * a2 + 16777216 * a3 == freecount
    && b0 + 256 * b1 + 65536 * b2 + 16777216 * b3 == nextfree
    && forall y | 0 <= y < 512 && !(488 <= y < 496) :: s1[y] == s0[y]
  }

  lemma InformedBytes(s: Sector, freecount: Word, nextfree: Word)
    ensures InfoBytes(s, PutWord(PutWord(s, FSINFO_FREECOUNT, freecount), FSINFO_NEXTFREE, nextfree), freecount, nextfree)
  {
    PutWordBytes(s, FSINFO_FREECOUNT, freecount);
    PutWordBytes(PutWord(s, FSINFO_FREECOUNT, freecount), FSINFO_NEXTFREE, nextfree);
  }

  class Volume {
    const g: Layout
    var disk: seq<Sector>             // the whole storage device
    var slots: seq<Slot>              // fat_cache with fat_cache_sectors
    var freecount: Word
    var nextfree: Word
    var flushDisabled: bool
    ghost var fat: seq<int>           // the links of the logical FAT: cached sectors where cached, else the disk's
    ghost var tops: seq<int>          // the reserved top four bits of its entries

    /** The volume is well laid out, its cache is sound, and `fat` is what disk and cache hold.
        The quantifier keeps the last two folded wherever `Unfold` is not mentioned. */
    ghost predicate Valid()
      reads this
    {
      && g.Laid(|disk|) && |fat| == g.Entries() && |slots| == CACHE_SIZE
      && forall k {:trigger Unfold(k)} | Unfold(k) ::
           CacheOk(g, disk, slots) && Reflects(View(g, disk, slots), fat, tops)
    }

    /** The logical FAT, sector by sector. */
    ghost function Sectors(): (v: seq<Sector>)
      reads this
      requires Valid()
      ensures |v| == g.fatSize
    {
      assert Unfold(0);
      View(g, disk, slots)
    }

    /** A freshly mounted volume: nothing cached, so the logical FAT is the one on disk. */
    constructor (g: Layout, disk: seq<Sector>, freecount: Word, nextfree: Word)
      requires g.Laid(|disk|)
      ensures Valid()
      ensures this.g == g && this.disk == disk
      ensures fat == LinksOf(disk[g.start + g.reserved..g.start + g.reserved + g.fatSize])
      ensures this.freecount == freecount && this.nextfree == nextfree
    {
      this.g, this.disk, this.freecount, this.nextfree := g, disk, freecount, nextfree;
      flushDisabled := false;
      ghost var view := disk[g.FatAt(0)..g.FatEnd()];
      fat, tops := LinksOf(view), TopsOf(view);
      slots := EmptyCache();
      new;
      EmptyCacheIsDisk(g, disk, slots);
      SectorsReflect(view);
    }

    /** Write a dirty slot back to the first FAT, and to the second if there is one. */
    method FlushFatSector(i: nat)
      requires Valid() && i < CACHE_SIZE && slots[i].valid
      modifies this`disk, this`slots
      ensures Valid() && Sectors() == old(Sectors())
      ensures slots == old(slots)[i := old(slots[i]).(dirty := false)]
      ensures 0 <= g.start + old(slots[i]).secnum < g.FatEnd()
      ensures disk == Flushed(g, old(disk), old(slots[i]))
      ensures FatsOnly(g, old(disk), disk)
    {
      assert Unfold(0);
      FlushKeepsView(g, disk, slots, i);
      var secnum := slots[i].secnum + g.start;
      disk := disk[secnum := slots[i].data];
      if g.numFats > 1 {
        secnum := secnum + g.fatSize;
        disk := disk[secnum := slots[i].data];
      }
      slots := slots[i := slots[i].(dirty := false)];
    }

    /** Get FAT sector `n` into its slot, writing back what was there. */
    method FillSlot(n: nat) returns (i: nat)
      requires Valid() && CacheOk(g, disk, slots) && n < g.fatSize
      modifies this`disk, this`slots
      ensures Valid() && Sectors() == old(Sectors()) && CacheOk(g, disk, slots)
      ensures i == (n + g.reserved) % CACHE_SIZE
      ensures (disk, slots) == old(Loaded(g, disk, slots, n)) && slots[i].data == Sectors()[n]
    {
      assert Unfold(0);
      LoadKeepsView(g, disk, slots, n);
      var secnum := n + g.reserved;
      i := secnum % CACHE_SIZE;
      assert SlotOk(g, disk, slots[i], i);
      ghost var (d, s) := Loaded(g, disk, slots, n);
      if slots[i].valid && slots[i].secnum != secnum {
        if slots[i].dirty {
          FlushFatSector(i);
        }
        slots := slots[i := slots[i].(valid := false)];
      }
      if !slots[i].valid {
        slots := slots[i := slots[i].(data := disk[g.start + secnum], valid := true, secnum := secnum)];
      }
      assert disk == d;
      assert slots == s;
    }

    /** Make FAT sector `n` cached and return its slot. */
    method CacheFatSector(n: nat, dirty: bool) returns (i: nat)
      requires Valid() && n < g.fatSize
      modifies this`disk, this`slots
      ensures Valid() && Sectors() == old(Sectors())
      ensures i == (n + g.reserved) % CACHE_SIZE
      ensures slots[i].valid && slots[i].secnum == n + g.reserved && slots[i].data == Sectors()[n]
      ensures slots[i].dirty == (dirty || old(slots[i].secnum == n + g.reserved && slots[i].dirty))
      ensures forall k | 0 <= k < CACHE_SIZE && k != i :: slots[k] == old(slots[k])
      ensures FatsOnly(g, old(disk), disk)
      ensures old(slots[i].dirty ==> slots[i].secnum == n + g.reserved) ==> disk == old(disk)
    {
      assert Unfold(0);
      LoadKeepsView(g, disk, slots, n);
      ghost var before := slots[(n + g.reserved) % CACHE_SIZE];
      assert SlotOk(g, disk, before, (n + g.reserved) % CACHE_SIZE);
      i := FillSlot(n);
      if dirty {
        DirtyKeepsView(g, disk, slots, i);
        slots := slots[i := slots[i].(dirty := true)];
      }
    }

    /** The free-cluster counter is exact. */
    ghost predicate Counted()
      reads this
      requires Valid()
    {
      freecount == FreeCount(g, fat)
    }

    method ReadFatEntry(entry: nat) returns (val: int)
      requires Valid() && entry < g.Entries()
      modifies this`disk, this`slots
      ensures Valid() && Sectors() == old(Sectors()) && FatsOnly(g, old(disk), disk)
      ensures val == fat[entry]
      ensures var s, o := Sectors()[entry / 128], 4 * (entry % 128);
        var b0: int, b1: int, b2: int, b3: int := s[o], s[o + 1], s[o + 2], s[o + 3];
        val == b0 + 256 * b1 + 65536 * b2 + 16777216 * (b3 % 16)
    {
      assert Unfold(0);
      var sector := entry / WORDS_PER_SECTOR;
      var offset := entry % WORDS_PER_SECTOR;
      var i := CacheFatSector(sector, false);
      LinkInView(Sectors(), fat, tops, sector, offset);
      val := WordAt(slots[i].data, offset) % LOW;
      LowBytes(slots[i].data, offset);
    }

    /** The cluster after `cluster` in its chain, or 0 at the end of the chain. */
    method GetNextCluster(cluster: nat) returns (next: int)
      requires Valid() && cluster < g.Entries()
      modifies this`disk, this`slots
      ensures Valid() && Sectors() == old(Sectors()) && FatsOnly(g, old(disk), disk)
      ensures next == if fat[cluster] >= 0x0fff_fff8 then 0 else fat[cluster]
    {
      next := ReadFatEntry(cluster);
      if next >= EOF_MARK {
        next := 0;
      }
    }

    /** Point one entry at `val`; both of the source's panics are excluded by the precondition. */
    method UpdateFatEntry(entry: nat, val: Word)
      requires Valid() && entry < g.Entries()
      requires entry != val && entry >= 2
      modifies this`disk, this`slots, this`freecount, this`fat
      ensures Valid() && FatsOnly(g, old(disk), disk)
      ensures fat == old(fat)[entry := Low(val)]
      ensures EntryWritten(old(Sectors()), Sectors(), entry, val)
      ensures freecount == NextCount(old(freecount), old(fat)[entry], val)
      ensures old(Counted()) && g.InRange(entry) && val < LOW ==> Counted()
    {
      assert Unfold(0);
      var sector := entry / WORDS_PER_SECTOR;
      var offset := entry % WORDS_PER_SECTOR;
      var i := CacheFatSector(sector, true);
      var prior := WordAt(slots[i].data, offset);
      LinkWritten(g, disk, slots, entry, fat, tops, val);
      if val != 0 {
        if prior % LOW == 0 && freecount > 0 {
          freecount := freecount - 1;
        }
      } else {
        if prior % LOW != 0 {
          freecount := (freecount + 1) % 0x1_0000_0000;
        }
      }
      slots := slots[i := slots[i].(data := PutWord(slots[i].data, offset, Merge(prior, val)))];
      fat := fat[entry := Low(val)];
      if old(Counted()) && g.InRange(entry) && val < LOW {
        CountFollows(g, |disk|, old(freecount), old(fat), entry, val);
      }
    }

    /** A free cluster, searched for sector by sector from `start` onwards and around; 0 if there is none. */
    method FindFreeCluster(start: nat) returns (cluster: int)
      requires Valid()
      modifies this`disk, this`slots, this`nextfree
      ensures Valid() && Sectors() == old(Sectors()) && FatsOnly(g, old(disk), disk)
      ensures cluster == 0 <==> FreeSet(g, fat) == {}
      ensures cluster != 0 ==> cluster in FreeSet(g, fat) && nextfree == cluster
      ensures cluster > 0 ==> exists turn: nat :: FirstFound(g, Sectors(), start, cluster, turn)
      ensures cluster == 0 ==> nextfree == old(nextfree)
    {
      ghost var view := Sectors();
      assert Reflects(view, fat, tops) by {
        assert Unfold(0);
      }
      var sector := start / WORDS_PER_SECTOR;
      var offset := start % WORDS_PER_SECTOR;
      for i := 0 to g.fatSize
        invariant offset == if i == 0 then start % WORDS_PER_SECTOR else 0
        invariant Valid() && Sectors() == view && FatsOnly(g, old(disk), disk) && nextfree == old(nextfree)
        invariant forall m | 0 <= m < i :: TurnEmpty(g, view, sector, m)
      {
        var nr := RoundRobin(i, sector, g.fatSize);
        var slot := CacheFatSector(nr, false);
        var c := ScanFatSector(g, slots[slot].data, nr, offset);
        if c != 0 {
          FreeSetBySector(g, view, fat, tops, c);
          FoundHere(g, view, start, c, i);
          nextfree := c;
          return c;
        }
        offset := 0;
      }
      NowhereFree(g, view, fat, tops, sector);
      return 0;
    }

    /** Write the counter and the search hint into the FSInfo sector; its other words stay. */
    method UpdateFsinfo()
      requires Valid()
      modifies this`disk
      ensures Valid() && Sectors() == old(Sectors())
      ensures Informed(g, old(disk), disk, freecount, nextfree)
      ensures disk == old(disk)[g.start + g.fsinfo := disk[g.start + g.fsinfo]]
      ensures InfoBytes(old(disk)[g.start + g.fsinfo], disk[g.start + g.fsinfo], freecount, nextfree)
    {
      assert Unfold(0);
      var buf := disk[g.start + g.fsinfo];
      InformedBytes(buf, freecount, nextfree);
      buf := PutWord(buf, FSINFO_FREECOUNT, freecount);
      buf := PutWord(buf, FSINFO_NEXTFREE, nextfree);
      OutsideFatsKeepsView(g, disk, slots, g.start + g.fsinfo, buf);
      disk := disk[g.start + g.fsinfo := buf];
    }

    /** Write back the dirty slots; unless flushing is held back, the FAT on disk then is the logical FAT. */
    method FlushFat(force: bool)
      requires Valid()
      modifies this`disk, this`slots
      ensures Valid() && Sectors() == old(Sectors())
      ensures flushDisabled && !force ==> disk == old(disk) && slots == old(slots)
      ensures |disk| == |old(disk)|
      ensures !flushDisabled || force ==> Informed(g, old(disk), disk, freecount, nextfree)
      ensures !flushDisabled || force ==>
        && disk[g.start + g.reserved..g.start + g.reserved + g.fatSize] == Sectors()
        && (g.numFats > 1 && old(Mirrored(g, disk)) ==> Mirrored(g, disk))
      ensures OutsideKept(g, old(disk), disk)
    {
      assert Unfold(0);
      if flushDisabled && !force {
        return;
      }
      for i := 0 to CACHE_SIZE
        invariant Valid() && Sectors() == old(Sectors()) && FatsOnly(g, old(disk), disk)
        invariant forall k | 0 <= k < i :: !slots[k].dirty
      {
        if slots[i].valid && slots[i].dirty {
          FlushFatSector(i);
        }
      }
      CleanCacheIsView(g, disk, slots);
      ghost var flushed := disk;
      UpdateFsinfo();
      assert disk[g.FatAt(0)..g.FatEnd()] == flushed[g.FatAt(0)..g.FatEnd()];
    }

    /** Recount the free clusters; the count is exact just when the two reserved entries are in use. */
    method RecalcFree()
      requires Valid()
      modifies this`disk, this`slots, this`freecount, this`nextfree
      ensures Valid() && Sectors() == old(Sectors())
      ensures freecount == |ZeroBelow(fat, g.clusters + 2)|
      ensures Counted() <==> fat[0] != 0 && fat[1] != 0
      ensures nextfree == FirstZero(fat, g.clusters + 2, old(nextfree))
      ensures Informed(g, old(disk), disk, freecount, nextfree) && OutsideKept(g, old(disk), disk)
    {
      assert Unfold(0);
      var free := 0;
      ghost var links, view := fat, Sectors();
      for i := 0 to g.fatSize
        invariant Valid() && Sectors() == view && FatsOnly(g, old(disk), disk)
        invariant Tallied(g, links, i * WORDS_PER_SECTOR, free, nextfree, old(nextfree))
      {
        var slot := CacheFatSector(i, false);
        var sec := slots[slot].data;
        forall k | 0 <= k < WORDS_PER_SECTOR
          ensures links[i * WORDS_PER_SECTOR + k] == WordAt(sec, k) % LOW
        {
          LinkInView(view, fat, tops, i, k);
        }
        free, nextfree := CountFatSector(g, sec, i, free, nextfree, links, old(nextfree));
      }
      ZeroBelowIsFreeSet(g, links);
      RangeSize(0, g.clusters + 2, ZeroBelow(links, g.clusters + 2));
      assert Least(g.Entries(), g.clusters + 2) == g.clusters + 2;
      freecount := free;
      UpdateFsinfo();
    }
  }
}
